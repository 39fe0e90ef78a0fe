/** The one walk over a page that pkg/fixupchains/pagecache.go makes: every link in order, and
    why the walk stopped; and what that says about the link-by-link walker. */
module PageTrace {
  import opened Basics
  import opened ChainWalk

  /** Why a walk stopped: at the end of the last chain, or at its first anomaly. */
  datatype Stop = AtEnd | OffSegment | ShortRead | Capped | BadNext

  /** The links walked, in order, with their raw words. */
  datatype Trace = Trace(offsets: seq<nat>, raws: seq<nat>, stop: Stop)

  const NOTHING: Trace := Trace([], [], AtEnd)

  function Append(front: Trace, rest: Trace): Trace {
    Trace(front.offsets + rest.offsets, front.raws + rest.raws, rest.stop)
  }

  /** The walk of one chain from cur on, with room for so many more links. */
  ghost function ChainTrace(image: Image, start: Starts, pcs: u64, cur: nat, room: nat): (t: Trace)
    ensures |t.offsets| == |t.raws| <= room && (t.stop == Capped ==> |t.offsets| == room)
    decreases start.pageSize - cur
  {
    match CheckedLocation(start, pcs, cur)
    case None => Trace([], [], OffSegment)
    case Some(location) =>
      match RawAt(image, start.format, location)
      case None => Trace([], [], ShortRead)
      case Some(raw) =>
        if room == 0 then Trace([], [], Capped)
        else
          match LinkAfter(start, cur, raw)
          case BadLink => Trace([cur], [raw], BadNext)
          case LastLink => Trace([cur], [raw], AtEnd)
          case LinkAt(next) => Append(Trace([cur], [raw], AtEnd), ChainTrace(image, start, pcs, next, room - 1))
  }

  /** The rest of a walk that stands at cur, with further chains to go. */
  ghost function RestTrace(image: Image, start: Starts, pcs: u64, cur: nat, chains: seq<u16>, room: nat): (t: Trace)
    ensures |t.offsets| == |t.raws| <= room && (t.stop == Capped ==> |t.offsets| == room)
    decreases |chains|, 1
  {
    var t := ChainTrace(image, start, pcs, cur, room);
    if t.stop != AtEnd then t else Append(t, ChainsTrace(image, start, pcs, chains, room - |t.offsets|))
  }

  ghost function ChainsTrace(image: Image, start: Starts, pcs: u64, chains: seq<u16>, room: nat): (t: Trace)
    ensures |t.offsets| == |t.raws| <= room && (t.stop == Capped ==> |t.offsets| == room)
    decreases |chains|, 0
  {
    if chains == [] then NOTHING else RestTrace(image, start, pcs, chains[0], chains[1..], room)
  }

  /** The guards before the walk: a known format, a page size, and offsets that fit int64. */
  predicate Walkable(start: Starts, pcs: u64) {
    && PointerSize(start.format) > 0 && Stride(start.format).Some? && start.pageSize > 0
    && pcs <= MAX_INT64 - (start.pageSize + PointerSize(start.format))
  }

  /** The cap on the links of one page. */
  function MaxLinks(start: Starts): nat
    requires Stride(start.format).Some?
  {
    start.pageSize / Stride(start.format).value + 2
  }

  ghost function PageWalk(image: Image, start: Starts, pcs: u64, chains: seq<u16>): Trace
    requires Walkable(start, pcs)
  {
    ChainsTrace(image, start, pcs, chains, MaxLinks(start))
  }

  // ---- The trace decides what the walker finds ----

  /** Every link stands in the page and has the word that is there. */
  ghost predicate TrueWords(image: Image, start: Starts, pcs: u64, offsets: seq<nat>, raws: seq<nat>) {
    && |offsets| == |raws|
    && forall k :: 0 <= k < |offsets| ==>
         offsets[k] <= start.pageSize && RawAt(image, start.format, pcs + offsets[k]) == Some(raws[k])
  }

  /** The walker's answer as the trace gives it; a capped trace leaves the misses open. */
  ghost predicate Decides(image: Image, start: Starts, pcs: u64, t: Trace, target: nat, w: Walk) {
    if target in t.offsets then
      RawAt(image, start.format, pcs + target).Some? && w == Reached(RawAt(image, start.format, pcs + target).value)
    else
      && (t.stop == AtEnd ==> w == Ended)
      && (t.stop in {OffSegment, ShortRead, BadNext} ==> w == Broken)
  }

  lemma {:induction false} ChainTraceDecides(image: Image, start: Starts, pcs: u64, cur: nat, room: nat, target: nat)
    ensures var t := ChainTrace(image, start, pcs, cur, room);
            && TrueWords(image, start, pcs, t.offsets, t.raws)
            && Decides(image, start, pcs, t, target, WalkChain(image, start, pcs, cur, target))
    decreases start.pageSize - cur
  {
    hide RawAt, CheckedLocation, LinkAfter, TrueWords, Decides;
    NothingDecides(image, start, pcs, target);
    var location := CheckedLocation(start, pcs, cur);
    if location.Some? {
      var raw := RawAt(image, start.format, location.value);
      if raw.Some? && room > 0 {
        var head := Trace([cur], [raw.value], AtEnd);
        HeadDecides(image, start, pcs, cur, raw.value, target);
        match LinkAfter(start, cur, raw.value) {
          case BadLink =>
            AppendDecides(image, start, pcs, head, Trace([], [], BadNext), target, if cur == target then Reached(raw.value) else Ended, Broken);
            assert Append(head, Trace([], [], BadNext)) == Trace([cur], [raw.value], BadNext);
          case LastLink =>
          case LinkAt(next) =>
            ChainTraceDecides(image, start, pcs, next, room - 1, target);
            AppendDecides(image, start, pcs, head, ChainTrace(image, start, pcs, next, room - 1), target,
                          if cur == target then Reached(raw.value) else Ended, WalkChain(image, start, pcs, next, target));
        }
      } else if raw.Some? {
        CappedLeavesOpen(image, start, pcs, target, WalkChain(image, start, pcs, cur, target));
      }
    }
  }

  /** One link that was read. */
  lemma HeadDecides(image: Image, start: Starts, pcs: u64, cur: nat, raw: nat, target: nat)
    requires cur <= start.pageSize && RawAt(image, start.format, pcs + cur) == Some(raw)
    ensures TrueWords(image, start, pcs, [cur], [raw])
    ensures Decides(image, start, pcs, Trace([cur], [raw], AtEnd), target, if cur == target then Reached(raw) else Ended)
  {
    hide RawAt;
  }

  lemma CappedLeavesOpen(image: Image, start: Starts, pcs: u64, target: nat, w: Walk)
    ensures Decides(image, start, pcs, Trace([], [], Capped), target, w)
  {
  }

  lemma AppendDecides(image: Image, start: Starts, pcs: u64, a: Trace, b: Trace, target: nat, w: Walk, u: Walk)
    requires TrueWords(image, start, pcs, a.offsets, a.raws) && Decides(image, start, pcs, a, target, w) && a.stop == AtEnd
    requires TrueWords(image, start, pcs, b.offsets, b.raws) && Decides(image, start, pcs, b, target, u)
    ensures var t := Append(a, b);
            && TrueWords(image, start, pcs, t.offsets, t.raws)
            && Decides(image, start, pcs, t, target, if w.Ended? then u else w)
  {
    hide RawAt;
  }

  /** The walker reaches exactly the offsets of the trace, with the words it recorded; for any
      other it ends if the trace does, and fails where the trace met an anomaly. */
  lemma {:induction false} TraceDecides(image: Image, start: Starts, pcs: u64, chains: seq<u16>, room: nat, target: nat)
    ensures var t := ChainsTrace(image, start, pcs, chains, room);
            && TrueWords(image, start, pcs, t.offsets, t.raws)
            && Decides(image, start, pcs, t, target, WalkChains(image, start, pcs, chains, target))
  {
    hide RawAt, WalkChain, ChainTrace, TrueWords, Decides;
    if chains == [] {
      NothingDecides(image, start, pcs, target);
    } else {
      ChainTraceDecides(image, start, pcs, chains[0], room, target);
      var t := ChainTrace(image, start, pcs, chains[0], room);
      var w := WalkChain(image, start, pcs, chains[0], target);
      if t.stop == AtEnd {
        TraceDecides(image, start, pcs, chains[1..], room - |t.offsets|, target);
        AppendDecides(image, start, pcs, t, ChainsTrace(image, start, pcs, chains[1..], room - |t.offsets|), target,
                      w, WalkChains(image, start, pcs, chains[1..], target));
      } else {
        StoppedDecides(image, start, pcs, t, target, w, WalkChains(image, start, pcs, chains[1..], target));
      }
    }
  }

  lemma NothingDecides(image: Image, start: Starts, pcs: u64, target: nat)
    ensures TrueWords(image, start, pcs, [], []) && Decides(image, start, pcs, NOTHING, target, Ended)
    ensures Decides(image, start, pcs, Trace([], [], OffSegment), target, Broken)
    ensures Decides(image, start, pcs, Trace([], [], ShortRead), target, Broken)
    ensures Decides(image, start, pcs, Trace([], [], BadNext), target, Broken)
  {
  }

  lemma StoppedDecides(image: Image, start: Starts, pcs: u64, t: Trace, target: nat, w: Walk, u: Walk)
    requires t.stop != AtEnd && Decides(image, start, pcs, t, target, w)
    ensures Decides(image, start, pcs, t, target, if w.Ended? then u else w)
  {
  }

  // ---- The cap ----

  /** Links of one chain are a stride apart. */
  lemma {:induction false} ChainAdvances(image: Image, start: Starts, pcs: u64, cur: nat, room: nat)
    requires Stride(start.format).Some?
    ensures var t, stride := ChainTrace(image, start, pcs, cur, room), Stride(start.format).value;
            && AscendsFrom(cur, t.offsets)
            && (t.stop == Capped ==> cur + room * stride <= start.pageSize)
    decreases start.pageSize - cur
  {
    hide RawAt, LinkAfter, CheckedLocation, Stride, AscendsFrom;
    NoneAscends(cur);
    var location := CheckedLocation(start, pcs, cur);
    if location.Some? && room > 0 {
      var raw := RawAt(image, start.format, location.value);
      if raw.Some? && LinkAfter(start, cur, raw.value).LinkAt? {
        var next, stride := LinkAfter(start, cur, raw.value).next, Stride(start.format).value;
        ChainAdvances(image, start, pcs, next, room - 1);
        assert room * stride == (room - 1) * stride + stride;
        var t, rest := ChainTrace(image, start, pcs, cur, room), ChainTrace(image, start, pcs, next, room - 1);
        assert t == Append(Trace([cur], [raw.value], AtEnd), rest);
        PrependAscends(cur, next, rest.offsets);
      }
    }
  }

  /** A page with one chain is never cut off by the cap, and its links ascend as they come. */
  lemma OneChainIsNotCapped(image: Image, start: Starts, pcs: u64, chain: u16)
    requires Walkable(start, pcs)
    ensures var t := PageWalk(image, start, pcs, [chain]);
            && t.stop != Capped
            && AscendsFrom(chain, t.offsets)
  {
    hide RawAt, LinkAfter, CheckedLocation, ChainTrace, AscendsFrom;
    var room := MaxLinks(start);
    ChainAdvances(image, start, pcs, chain, room);
    CapIsBeyondPage(start.pageSize, Stride(start.format).value);
    var t := ChainTrace(image, start, pcs, chain, room);
    assert [chain][1..] == [] && ChainsTrace(image, start, pcs, [], room - |t.offsets|) == NOTHING;
    assert PageWalk(image, start, pcs, [chain]) == RestTrace(image, start, pcs, chain, [], room);
    assert t.offsets + [] == t.offsets;
  }

  lemma CapIsBeyondPage(pageSize: nat, stride: u64)
    requires stride in {1, 4, 8}
    ensures (pageSize / stride + 2) * stride > pageSize
  {
  }

  lemma {:induction false} ChainKeepsAlignment(image: Image, start: Starts, pcs: u64, cur: nat, room: nat)
    requires Stride(start.format).Some? && cur % Stride(start.format).value == 0
    ensures forall offset :: offset in ChainTrace(image, start, pcs, cur, room).offsets ==> offset % Stride(start.format).value == 0
    decreases start.pageSize - cur
  {
    hide RawAt, CheckedLocation, Stride;
    var location := CheckedLocation(start, pcs, cur);
    if location.Some? && room > 0 {
      var raw := RawAt(image, start.format, location.value);
      if raw.Some? && LinkAfter(start, cur, raw.value).LinkAt? {
        LinkKeepsAlignment(start, cur, raw.value);
        ChainKeepsAlignment(image, start, pcs, LinkAfter(start, cur, raw.value).next, room - 1);
      }
    }
  }

  lemma LinkKeepsAlignment(start: Starts, cur: nat, raw: nat)
    requires Stride(start.format).Some? && cur % Stride(start.format).value == 0 && LinkAfter(start, cur, raw).LinkAt?
    ensures LinkAfter(start, cur, raw).next % Stride(start.format).value == 0
  {
    hide ChainNext, StepBytes, Stride;
    var stride, next := Stride(start.format).value, ChainNext(start.format, raw).value;
    AlignedStep(cur, next, stride);
  }

  lemma AlignedStep(cur: nat, next: nat, stride: u64)
    requires stride in {1, 4, 8} && cur % stride == 0 && 0 < next < 0x1_0000
    ensures (cur + StepBytes(next, stride)) % stride == 0
  {
    if stride == 4 {
      assert (cur + next * 4) % 4 == 0;
    } else if stride == 8 {
      assert (cur + next * 8) % 8 == 0;
    }
  }

  lemma {:induction false} ChainsKeepAlignment(image: Image, start: Starts, pcs: u64, chains: seq<u16>, room: nat)
    requires Stride(start.format).Some? && forall c :: c in chains ==> c % Stride(start.format).value == 0
    ensures forall offset :: offset in ChainsTrace(image, start, pcs, chains, room).offsets ==> offset % Stride(start.format).value == 0
  {
    hide ChainTrace, Stride;
    if chains != [] {
      assert chains[0] in chains && forall c :: c in chains[1..] ==> c in chains;
      ChainKeepsAlignment(image, start, pcs, chains[0], room);
      var t := ChainTrace(image, start, pcs, chains[0], room);
      ChainsKeepAlignment(image, start, pcs, chains[1..], room - |t.offsets|);
    }
  }

  /** With aligned chain heads the cap only cuts off a walk that meets some location twice. */
  lemma CappedWalkRepeats(image: Image, start: Starts, pcs: u64, chains: seq<u16>)
    requires Walkable(start, pcs) && forall c :: c in chains ==> c % Stride(start.format).value == 0
    requires PageWalk(image, start, pcs, chains).stop == Capped
    ensures var offsets := PageWalk(image, start, pcs, chains).offsets;
            exists i, j :: 0 <= i < j < |offsets| && offsets[i] == offsets[j]
  {
    hide ChainsTrace, RawAt;
    var t, stride := PageWalk(image, start, pcs, chains), Stride(start.format).value;
    ChainsKeepAlignment(image, start, pcs, chains, MaxLinks(start));
    TraceDecides(image, start, pcs, chains, MaxLinks(start), 0);
    var slots := seq(|t.offsets|, i requires 0 <= i < |t.offsets| => t.offsets[i] / stride);
    forall i | 0 <= i < |slots| ensures slots[i] < start.pageSize / stride + 1 && t.offsets[i] == slots[i] * stride {
      assert t.offsets[i] in t.offsets;
      SlotBelow(t.offsets[i], start.pageSize, stride);
    }
    Pigeonhole(slots, start.pageSize / stride + 1);
    var i, j :| 0 <= i < j < |slots| && slots[i] == slots[j];
    assert t.offsets[i] == t.offsets[j];
  }

  lemma SlotBelow(offset: nat, pageSize: nat, stride: u64)
    requires stride in {1, 4, 8} && offset <= pageSize && offset % stride == 0
    ensures 0 <= offset / stride < pageSize / stride + 1 && offset == offset / stride * stride
  {
  }
}
