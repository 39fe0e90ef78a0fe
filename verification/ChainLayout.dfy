/** Chained fixups laid out as bytes: what the pointer formats of pkg/fixupchains/types.go put
    into a word, and that a lookup in a page written that way finds every fixup and no other. */
module ChainLayout {
  import opened Basics
  import opened Fields
  import opened ChainWalk
  import opened PageCache

  // ---- The formats ----

  /** The bit fields of a format's words, lowest first, which of them is the distance to the next
      fixup, and how many bytes one unit of it is. */
  datatype Format = Format(widths: seq<nat>, next: nat, unit: nat)

  /** The struct of each DYLD_CHAINED_PTR format. */
  function FormatOf(format: u16): Option<Format> {
    match format
    case 1 => Some(Format([43, 8, 11, 1, 1], 2, 8))              // ARM64E: target, high8, next, bind, auth
    case 2 => Some(Format([36, 8, 7, 12, 1], 3, 4))              // 64: target, high8, reserved, next, bind
    case 3 => Some(Format([26, 5, 1], 1, 4))                     // 32: target, next, bind
    case 4 => Some(Format([30, 2], 1, 4))                        // 32_CACHE: target, next
    case 5 => Some(Format([26, 6], 1, 4))                        // 32_FIRMWARE: target, next
    case 6 => Some(Format([36, 8, 7, 12, 1], 3, 4))              // 64_OFFSET
    case 7 => Some(Format([43, 8, 11, 1, 1], 2, 4))              // ARM64E_KERNEL
    case 8 => Some(Format([30, 2, 16, 1, 2, 12, 1], 5, 4))       // 64_KERNEL_CACHE: target, level, diversity, ...
    case 9 => Some(Format([43, 8, 11, 1, 1], 2, 8))              // ARM64E_USERLAND
    case 10 => Some(Format([43, 8, 11, 1, 1], 2, 4))             // ARM64E_FIRMWARE
    case 11 => Some(Format([30, 2, 16, 1, 2, 12, 1], 5, 1))      // X86_64_KERNEL_CACHE
    case 12 => Some(Format([43, 8, 11, 1, 1], 2, 8))             // ARM64E_USERLAND24
    case 13 => Some(Format([34, 8, 10, 11, 1], 3, 8))            // ARM64E_SHARED_CACHE
    case 14 => Some(Format([28, 4, 19, 12, 1], 3, 4))            // ARM64E_SEGMENTED
    case 15 => Some(Format([51, 11, 1, 1], 1, 8))                // ARM64E_SHARED_CACHE_V3
    case 16 => Some(Format([40, 16, 8], 1, 4))                   // SHARED_CACHE_V2
    case _ => None
  }

  predicate Has(fs: seq<Field>, widths: seq<nat>) {
    |fs| == |widths| && forall i :: 0 <= i < |fs| ==> fs[i].width == widths[i]
  }

  lemma {:induction false} BelowIsTotal(fs: seq<Field>, widths: seq<nat>, k: nat)
    requires Has(fs, widths) && k <= |fs|
    ensures Below(fs, k) == Total(widths[..k])
    decreases k
  {
    if k > 0 {
      BelowIsTotal(fs[1..], widths[1..], k - 1);
      assert widths[..k][1..] == widths[1..][..k - 1];
    }
  }

  /** The fields fill the pointer, the stride is the unit of the next field, and everything else is
      refused. */
  lemma FormatsAgree(format: u16)
    ensures FormatOf(format).Some? ==>
              var f := FormatOf(format).value;
              && Total(f.widths) == 8 * PointerSize(format) && PointerSize(format) in {4, 8} && Stride(format) == Some(f.unit)
              && f.next < |f.widths| && NextField(format) == Some(BitField(Total(f.widths[..f.next]), f.widths[f.next]))
    ensures FormatOf(format).None? ==> PointerSize(format) == 0 && Stride(format) == None && NextField(format) == None
  {
    hide Total;
    Totals64();
    Totals32();
  }

  lemma Totals64()
    ensures Total([43, 8, 11, 1, 1]) == 64 && Total([43, 8, 11, 1, 1][..2]) == 51
    ensures Total([36, 8, 7, 12, 1]) == 64 && Total([36, 8, 7, 12, 1][..3]) == 51
    ensures Total([30, 2, 16, 1, 2, 12, 1]) == 64 && Total([30, 2, 16, 1, 2, 12, 1][..5]) == 51
    ensures Total([34, 8, 10, 11, 1]) == 64 && Total([34, 8, 10, 11, 1][..3]) == 52
    ensures Total([28, 4, 19, 12, 1]) == 64 && Total([28, 4, 19, 12, 1][..3]) == 51
    ensures Total([51, 11, 1, 1]) == 64 && Total([51, 11, 1, 1][..1]) == 51
    ensures Total([40, 16, 8]) == 64 && Total([40, 16, 8][..1]) == 40
  {
    hide Total;
    Prefixes64();
    Sums([43, 8, 11, 1, 1]);
    Sums([43, 8]);
    Sums([36, 8, 7, 12, 1]);
    Sums([36, 8, 7]);
    Sums([30, 2, 16, 1, 2, 12, 1]);
    Sums([30, 2, 16, 1, 2]);
    Sums([34, 8, 10, 11, 1]);
    Sums([34, 8, 10]);
    Sums([28, 4, 19, 12, 1]);
    Sums([28, 4, 19]);
    Sums([51, 11, 1, 1]);
    Sums([51]);
    Sums([40, 16, 8]);
    Sums([40]);
  }

  lemma Prefixes64()
    ensures [43, 8, 11, 1, 1][..2] == [43, 8] && [36, 8, 7, 12, 1][..3] == [36, 8, 7]
    ensures [30, 2, 16, 1, 2, 12, 1][..5] == [30, 2, 16, 1, 2] && [34, 8, 10, 11, 1][..3] == [34, 8, 10]
    ensures [28, 4, 19, 12, 1][..3] == [28, 4, 19] && [51, 11, 1, 1][..1] == [51] && [40, 16, 8][..1] == [40]
  {
  }

  lemma Totals32()
    ensures Total([26, 5, 1]) == 32 && Total([26, 5, 1][..1]) == 26
    ensures Total([30, 2]) == 32 && Total([30, 2][..1]) == 30
    ensures Total([26, 6]) == 32 && Total([26, 6][..1]) == 26
  {
    assert [26, 5, 1][..1] == [26] && [30, 2][..1] == [30] && [26, 6][..1] == [26];
    hide Total;
    Sums([26, 5, 1]);
    Sums([26]);
    Sums([30, 2]);
    Sums([30]);
    Sums([26, 6]);
  }

  /** The sum of up to seven widths, written out. */
  lemma Sums(w: seq<nat>)
    requires 0 < |w| <= 7
    ensures Total(w) == w[0] + (if |w| > 1 then w[1] else 0) + (if |w| > 2 then w[2] else 0) + (if |w| > 3 then w[3] else 0)
                        + (if |w| > 4 then w[4] else 0) + (if |w| > 5 then w[5] else 0) + (if |w| > 6 then w[6] else 0)
  {
    if |w| > 1 {
      Sums(w[1..]);
    }
  }

  /** chainNext finds the next field of every word put together from a format's fields. */
  lemma NextReads(format: u16, fs: seq<Field>)
    requires FormatOf(format).Some? && Has(fs, FormatOf(format).value.widths) && Fit(fs)
    ensures FormatOf(format).value.next < |fs|
    ensures ChainNext(format, Assemble(fs)) == Some(fs[FormatOf(format).value.next].value)
  {
    hide FormatOf, NextField, Pow2, Assemble;
    FormatsAgree(format);
    var f := FormatOf(format).value;
    BelowIsTotal(fs, f.widths, f.next);
    FieldReads(fs, f.next);
  }

  // ---- Where a fixup may stand ----

  /** A fixup's location is accepted exactly if it starts on the page, or right behind it, and lies
      in the whole segment, whose range does not wrap. */
  lemma LocationExactly(start: Starts, pcs: u64, offset: nat)
    ensures CheckedLocation(start, pcs, offset) ==
            if && 0 < start.pageSize && offset <= start.pageSize && PointerSize(start.format) > 0
               && start.segmentOffset <= pcs + offset
               && pcs + offset + PointerSize(start.format) <= start.segmentOffset + start.pageCount * start.pageSize < U64
            then Some(pcs + offset) else None
  {
  }

  // ---- A chain as bytes ----

  /** One fixup of a chain: where it starts in the page, and the fields of its word. */
  datatype Laid = Laid(offset: nat, fields: seq<Field>)

  /** The fixup's word is in the data, at a place in the page and in the segment. */
  ghost predicate Stands(image: Image, start: Starts, pcs: u64, l: Laid) {
    && FormatOf(start.format).Some? && Has(l.fields, FormatOf(start.format).value.widths) && Fit(l.fields)
    && 0 < start.pageSize && l.offset <= start.pageSize && start.segmentOffset <= pcs + l.offset
    && var n := Total(FormatOf(start.format).value.widths) / 8;
       && pcs + l.offset + n <= start.segmentOffset + start.pageCount * start.pageSize < U64
       && pcs + l.offset + n <= |image.data|
       && image.data[pcs + l.offset..pcs + l.offset + n] == WordBytes(Assemble(l.fields), n, image.bigEndian)
  }

  /** The distance a fixup carries, in bytes. */
  function NextOf(format: u16, l: Laid): nat {
    match FormatOf(format)
    case None => 0
    case Some(f) => if f.next < |l.fields| then l.fields[f.next].value * f.unit else 0
  }

  /** Each fixup carries the distance to the following one; the last carries zero, or a distance
      that leaves the page. */
  ghost predicate LaidChain(image: Image, start: Starts, pcs: u64, ls: seq<Laid>) {
    && ls != [] && (forall k :: 0 <= k < |ls| ==> Stands(image, start, pcs, ls[k]))
    && (forall j, k :: 0 <= j < |ls| && k == j + 1 < |ls| ==>
          ls[j].offset < ls[k].offset && ls[k].offset == ls[j].offset + NextOf(start.format, ls[j]))
    && var last := ls[|ls| - 1];
       NextOf(start.format, last) == 0 || last.offset + NextOf(start.format, last) > start.pageSize
  }

  /** A fixup that stands is read as its word, and its link is what its next field says. */
  lemma StandingReads(image: Image, start: Starts, pcs: u64, l: Laid)
    requires Stands(image, start, pcs, l)
    ensures CheckedLocation(start, pcs, l.offset) == Some(pcs + l.offset)
    ensures RawAt(image, start.format, pcs + l.offset) == Some(Assemble(l.fields))
    ensures FormatOf(start.format).value.next < |l.fields|
    ensures LinkAfter(start, l.offset, Assemble(l.fields)) ==
            var step := NextOf(start.format, l);
            if step == 0 || l.offset + step > start.pageSize then LastLink else LinkAt(l.offset + step)
  {
    hide FormatOf, CheckedLocation, PointerSize, Stride, NextField, ChainNext, Assemble, WordBytes, WordOf, Pow2;
    FormatsAgree(start.format);
    LocationExactly(start, pcs, l.offset);
    NextReads(start.format, l.fields);
    AssembleFits(l.fields);
    BelowIsTotal(l.fields, FormatOf(start.format).value.widths, |l.fields|);
    assert FormatOf(start.format).value.widths[..|l.fields|] == FormatOf(start.format).value.widths;
    WordReads(Assemble(l.fields), PointerSize(start.format), image.bigEndian);
    StepIs(start, l);
  }

  lemma StepIs(start: Starts, l: Laid)
    requires FormatOf(start.format).Some? && Has(l.fields, FormatOf(start.format).value.widths) && Fit(l.fields)
    ensures FormatOf(start.format).value.next < |l.fields|
    ensures var f := FormatOf(start.format).value; var n := l.fields[f.next].value;
            n < 0x1_0000 && StepBytes(n, f.unit) == n * f.unit && n * f.unit < 0x10_0000
            && (n * f.unit == 0 <==> n == 0)
  {
    hide FormatOf, NextField, Pow2, Assemble;
    FormatsAgree(start.format);
    NextReads(start.format, l.fields);
    var f := FormatOf(start.format).value;
    assert f.unit == 1 || f.unit == 4 || f.unit == 8;
  }

  /** The walker reaches exactly the fixups of a laid-out chain. */
  lemma {:induction false} ChainWalksLayout(image: Image, start: Starts, pcs: u64, ls: seq<Laid>, target: nat)
    requires LaidChain(image, start, pcs, ls)
    ensures forall k :: 0 <= k < |ls| && ls[k].offset == target ==>
              WalkChain(image, start, pcs, ls[0].offset, target) == Reached(Assemble(ls[k].fields))
    ensures (forall k :: 0 <= k < |ls| ==> ls[k].offset != target) ==> WalkChain(image, start, pcs, ls[0].offset, target) == Ended
  {
    hide FormatOf, CheckedLocation, RawAt, LinkAfter, Assemble, Stands, NextOf;
    StandingReads(image, start, pcs, ls[0]);
    OffsetsAscend(image, start, pcs, ls);
    if |ls| > 1 {
      assert ls[1].offset == ls[0].offset + NextOf(start.format, ls[0]);
      OnPage(image, start, pcs, ls[1]);
      RestOfChain(image, start, pcs, ls);
      ChainWalksLayout(image, start, pcs, ls[1..], target);
      assert forall k :: 1 <= k < |ls| ==> ls[k] == ls[1..][k - 1];
    }
  }

  lemma OnPage(image: Image, start: Starts, pcs: u64, l: Laid)
    requires Stands(image, start, pcs, l)
    ensures l.offset <= start.pageSize
  {
  }

  lemma {:induction false} OffsetsAscend(image: Image, start: Starts, pcs: u64, ls: seq<Laid>)
    requires LaidChain(image, start, pcs, ls)
    ensures forall k :: 0 < k < |ls| ==> ls[0].offset < ls[k].offset
  {
    hide FormatOf, Stands, NextOf;
    if |ls| > 1 {
      RestOfChain(image, start, pcs, ls);
      OffsetsAscend(image, start, pcs, ls[1..]);
      assert forall k :: 1 <= k < |ls| ==> ls[k] == ls[1..][k - 1];
    }
  }

  lemma RestOfChain(image: Image, start: Starts, pcs: u64, ls: seq<Laid>)
    requires LaidChain(image, start, pcs, ls) && |ls| > 1
    ensures LaidChain(image, start, pcs, ls[1..])
  {
    hide FormatOf, Stands, NextOf;
    var rest := ls[1..];
    assert forall k :: 0 <= k < |rest| ==> rest[k] == ls[k + 1];
    forall j, k | 0 <= j < |rest| && k == j + 1 < |rest|
      ensures rest[j].offset < rest[k].offset && rest[k].offset == rest[j].offset + NextOf(start.format, rest[j]) {
      assert ls[j + 1].offset < ls[k + 1].offset;
    }
  }

  // ---- A page ----

  /** The page's chains in order, each laid out from its start. */
  ghost predicate LaidPage(image: Image, start: Starts, pcs: u64, heads: seq<u16>, page: seq<seq<Laid>>) {
    |heads| == |page| && forall c :: 0 <= c < |heads| ==> LaidChain(image, start, pcs, page[c]) && page[c][0].offset == heads[c]
  }

  ghost predicate Holds(page: seq<seq<Laid>>, target: nat, fields: seq<Field>) {
    exists c, k :: 0 <= c < |page| && 0 <= k < |page[c]| && page[c][k] == Laid(target, fields)
  }

  lemma {:induction false} PageWalksLayout(image: Image, start: Starts, pcs: u64, heads: seq<u16>, page: seq<seq<Laid>>, target: nat)
    requires LaidPage(image, start, pcs, heads, page)
    ensures forall fields :: Holds(page, target, fields) ==>
              WalkChains(image, start, pcs, heads, target) == Reached(Assemble(fields))
    ensures (forall fields :: !Holds(page, target, fields)) ==> WalkChains(image, start, pcs, heads, target) == Ended
  {
    hide LaidChain, WalkChain, Assemble;
    if heads != [] {
      ChainWalksLayout(image, start, pcs, page[0], target);
      assert forall c :: 1 <= c < |page| ==> page[c] == page[1..][c - 1] && heads[c] == heads[1..][c - 1];
      PageWalksLayout(image, start, pcs, heads[1..], page[1..], target);
      forall fields | Holds(page, target, fields)
        ensures WalkChains(image, start, pcs, heads, target) == Reached(Assemble(fields)) {
        var c, k :| 0 <= c < |page| && 0 <= k < |page[c]| && page[c][k] == Laid(target, fields);
        if i :| 0 <= i < |page[0]| && page[0][i].offset == target {
          SameWord(image, start, pcs, page[0], i, page[c], k);
        } else {
          assert c > 0 && page[1..][c - 1][k] == Laid(target, fields);
          assert Holds(page[1..], target, fields);
        }
      }
      if forall fields :: !Holds(page, target, fields) {
        forall k | 0 <= k < |page[0]| ensures page[0][k].offset != target {
          assert page[0][k] == Laid(page[0][k].offset, page[0][k].fields);
          assert page[0][k].offset == target ==> Holds(page, target, page[0][k].fields);
        }
        forall fields ensures !Holds(page[1..], target, fields) {
          assert !Holds(page, target, fields);
          forall c, k | 0 <= c < |page[1..]| && 0 <= k < |page[1..][c]| ensures page[1..][c][k] != Laid(target, fields) {
            assert page[1..][c] == page[c + 1];
          }
        }
      }
    }
  }

  /** Two chains that meet have the same word there. */
  lemma SameWord(image: Image, start: Starts, pcs: u64, a: seq<Laid>, i: nat, b: seq<Laid>, k: nat)
    requires LaidChain(image, start, pcs, a) && LaidChain(image, start, pcs, b) && i < |a| && k < |b| && a[i].offset == b[k].offset
    ensures Assemble(a[i].fields) == Assemble(b[k].fields)
  {
    hide FormatOf, Assemble, NextOf, Stands, RawAt;
    StandingReads(image, start, pcs, a[i]);
    StandingReads(image, start, pcs, b[k]);
  }

  // ---- The lookup ----

  /** Page number i of the segment is written as chains that start where the page table says. */
  ghost predicate Written(image: Image, start: Starts, i: nat, heads: seq<u16>, page: seq<seq<Laid>>) {
    && i < |start.pageStarts| && start.pageStarts[i] != START_NONE
    && StartsForPage(start, start.pageStarts[i]) == Some(heads)
    && FormatOf(start.format).Some? && start.segmentOffset + i * start.pageSize < U64
    && LaidPage(image, start, start.segmentOffset + i * start.pageSize, heads, page)
  }

  /** A lookup in a page written that way, any page of the segment, answers the decoded word at
      every fixup. */
  lemma LookupFindsFixup<T>(image: Image, decode: (u16, nat, nat) -> T, start: Starts, i: nat, heads: seq<u16>, page: seq<seq<Laid>>,
                            target: nat, fields: seq<Field>)
    requires Written(image, start, i, heads, page) && target < start.pageSize && start.segmentOffset + i * start.pageSize + target < U64
    requires Holds(page, target, fields) && target % FormatOf(start.format).value.unit == 0
    ensures var offset := start.segmentOffset + i * start.pageSize + target;
            PlainAtOffset(image, decode, start, offset) == Decoded(decode(start.format, Assemble(fields), offset))
  {
    hide StartsForPage, Assemble, WalkChains, LaidPage, Holds, PlainAtOffset, Plain, FormatOf;
    var skip := i * start.pageSize;
    FormatsAgree(start.format);
    LookupOnPage(image, decode, start, i, skip, target);
    PageWalksLayout(image, start, start.segmentOffset + skip, heads, page, target);
    PlainIs(image, decode, start, start.pageStarts[i], start.segmentOffset + skip, target, heads);
  }

  /** It answers that there is no fixup everywhere else on the page. */
  lemma LookupFindsNothingElse<T>(image: Image, decode: (u16, nat, nat) -> T, start: Starts, i: nat, heads: seq<u16>,
                                  page: seq<seq<Laid>>, target: nat)
    requires Written(image, start, i, heads, page) && target < start.pageSize && start.segmentOffset + i * start.pageSize + target < U64
    requires forall fields :: !Holds(page, target, fields)
    ensures PlainAtOffset(image, decode, start, start.segmentOffset + i * start.pageSize + target) == NoFixup
  {
    hide StartsForPage, Assemble, WalkChains, LaidPage, Holds, PlainAtOffset, Plain, FormatOf;
    var skip := i * start.pageSize;
    FormatsAgree(start.format);
    LookupOnPage(image, decode, start, i, skip, target);
    PageWalksLayout(image, start, start.segmentOffset + skip, heads, page, target);
    PlainIs(image, decode, start, start.pageStarts[i], start.segmentOffset + skip, target, heads);
  }

  /** Which page a lookup goes to. */
  lemma LookupOnPage<T>(image: Image, decode: (u16, nat, nat) -> T, start: Starts, i: nat, skip: nat, target: nat)
    requires i < |start.pageStarts| && start.pageStarts[i] != START_NONE && PointerSize(start.format) > 0 && Stride(start.format).Some?
    requires skip == i * start.pageSize && target < start.pageSize && start.segmentOffset + skip + target < U64
    ensures PlainAtOffset(image, decode, start, start.segmentOffset + skip + target) ==
            if target % Stride(start.format).value != 0 then NoFixup
            else Plain(image, decode, start, start.pageStarts[i], start.segmentOffset + skip, target)
  {
    hide Plain, Stride, PointerSize;
    var offset := start.segmentOffset + skip + target;
    assert (offset - start.segmentOffset) / start.pageSize == i by {
      DivUnique(skip + target, start.pageSize, i);
    }
  }

  lemma PlainIs<T>(image: Image, decode: (u16, nat, nat) -> T, start: Starts, pageStart: u16, pcs: u64, target: nat, heads: seq<u16>)
    requires StartsForPage(start, pageStart) == Some(heads)
    ensures Plain(image, decode, start, pageStart, pcs, target) ==
            match WalkChains(image, start, pcs, heads, target)
            case Reached(raw) => Decoded(decode(start.format, raw, pcs + target))
            case Ended => NoFixup
            case Broken => Failed
  {
    hide StartsForPage, WalkChains;
  }

  // ---- The starts of a page ----

  /** The offset a table entry stands for, and whether it is the last of its run. */
  predicate Entry(entry: u16, pageSize: u16, offset: u16, last: bool) {
    offset == entry % 0x8000 && offset <= pageSize && (entry >= 0x8000 <==> last)
  }

  /** chains are the offsets in these table entries, of which only the last is marked. */
  ghost predicate RunOf(entries: seq<u16>, pageSize: u16, chains: seq<u16>) {
    && chains != [] && |entries| == |chains|
    && forall k :: 0 <= k < |chains| ==> Entry(entries[k], pageSize, chains[k], k == |chains| - 1)
  }

  ghost predicate IsRun(start: Starts, i: nat, chains: seq<u16>) {
    i + |chains| <= |start.chainStarts| && RunOf(start.chainStarts[i..i + |chains|], start.pageSize, chains)
  }

  /** No start follows a larger or equal one, except that zero may be followed by anything. */
  ghost predicate Rises(previous: u16, chains: seq<u16>) {
    && (chains != [] && previous != 0 ==> previous < chains[0])
    && forall j, k :: 0 <= j < |chains| && k == j + 1 < |chains| && chains[j] != 0 ==> chains[j] < chains[k]
  }

  lemma {:induction false} RunExactly(start: Starts, i: nat, previous: u16, chains: seq<u16>)
    ensures TrailingStarts(start, i, previous) == Some(chains) <==> IsRun(start, i, chains) && Rises(previous, chains)
    decreases |start.chainStarts| - i
  {
    hide RunOf, Rises;
    NotEmptyRun([], start.pageSize, previous);
    if i < |start.chainStarts| && chains != [] {
      var entry, rest := start.chainStarts[i], chains[1..];
      var offset, t := Offset(entry), TrailingStarts(start, i + 1, Offset(entry));
      assert offset == entry % 0x8000;
      assert chains == [chains[0]] + rest;
      RunExactly(start, i + 1, offset, rest);
      NotEmptyRun([], start.pageSize, offset);
      RiseStep(previous, chains);
      if i + |chains| <= |start.chainStarts| {
        FirstOfSlice(start.chainStarts, i, |chains|);
        RunStep(entry, start.chainStarts[i + 1..i + 1 + |rest|], start.pageSize, chains);
      }
      SameParts(offset, if t.Some? then t.value else [], chains);
      SameParts(offset, [], chains);
      assert |chains| == 1 ==> rest == [];
    } else if i <= |start.chainStarts| {
      assert start.chainStarts[i..i] == [];
    }
  }

  lemma FirstOfSlice(s: seq<u16>, i: nat, n: nat)
    requires 0 < n && i + n <= |s|
    ensures s[i..i + n] == [s[i]] + s[i + 1..i + n]
  {
  }

  lemma SameParts(first: u16, rest: seq<u16>, chains: seq<u16>)
    requires chains != []
    ensures [first] + rest == chains <==> first == chains[0] && rest == chains[1..]
    ensures [first] + [] == [first]
  {
    assert chains == [chains[0]] + chains[1..];
    assert ([first] + rest)[1..] == rest;
  }

  lemma NotEmptyRun(entries: seq<u16>, pageSize: u16, previous: u16)
    ensures !RunOf(entries, pageSize, []) && Rises(previous, [])
  {
  }

  lemma RunStep(entry: u16, entries: seq<u16>, pageSize: u16, chains: seq<u16>)
    requires chains != [] && |entries| == |chains| - 1
    ensures RunOf([entry] + entries, pageSize, chains) <==>
              Entry(entry, pageSize, chains[0], |chains| == 1) && (|chains| == 1 || RunOf(entries, pageSize, chains[1..]))
  {
    hide Entry;
    var all, rest := [entry] + entries, chains[1..];
    if |chains| > 1 && RunOf(all, pageSize, chains) {
      forall k | 0 <= k < |rest| ensures Entry(entries[k], pageSize, rest[k], k == |rest| - 1) {
        assert Entry(all[k + 1], pageSize, chains[k + 1], k + 1 == |chains| - 1);
      }
    }
    if |chains| > 1 && RunOf(entries, pageSize, rest) && Entry(entry, pageSize, chains[0], false) {
      forall k | 0 <= k < |chains| ensures Entry(all[k], pageSize, chains[k], k == |chains| - 1) {
        assert k > 0 ==> Entry(entries[k - 1], pageSize, rest[k - 1], k - 1 == |rest| - 1);
      }
    }
    assert RunOf(all, pageSize, chains) ==> Entry(all[0], pageSize, chains[0], 0 == |chains| - 1);
  }

  lemma RiseStep(previous: u16, chains: seq<u16>)
    requires chains != []
    ensures Rises(previous, chains) <==> (previous == 0 || previous < chains[0]) && Rises(chains[0], chains[1..])
  {
    var rest := chains[1..];
    assert forall k :: 0 <= k < |rest| ==> rest[k] == chains[k + 1];
    if Rises(chains[0], rest) {
      forall j, k | 0 <= j < |chains| && k == j + 1 < |chains| && chains[j] != 0 ensures chains[j] < chains[k] {
        assert chains[k] == rest[k - 1] && (j > 0 ==> chains[j] == rest[j - 1]);
      }
    }
    if Rises(previous, chains) {
      forall j, k | 0 <= j < |rest| && k == j + 1 < |rest| && rest[j] != 0 ensures rest[j] < rest[k] {
        assert rest[j] == chains[j + 1] && rest[k] == chains[k + 1];
      }
      assert rest != [] ==> rest[0] == chains[1];
    }
  }

  /** The chains of a page, exactly: none, the one the table names, or a rising run of the trailing
      table, which only the 32-bit formats have. */
  lemma StartsExactly(start: Starts, pageStart: u16, chains: seq<u16>)
    ensures StartsForPage(start, pageStart) == Some(chains) <==>
            if pageStart == 0xFFFF then chains == []
            else if pageStart < 0x8000 then pageStart <= start.pageSize && chains == [pageStart]
            else
              && start.format in {3, 4, 5} && pageStart - 0x8000 >= |start.pageStarts|
              && IsRun(start, pageStart - 0x8000 - |start.pageStarts|, chains) && Rises(0, chains)
  {
    hide IsRun, Rises;
    if pageStart >= 0x8000 && pageStart - 0x8000 >= |start.pageStarts| {
      RunExactly(start, pageStart - 0x8000 - |start.pageStarts|, 0, chains);
    }
  }
}
