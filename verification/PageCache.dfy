/** The chained-fixup page cache of pkg/fixupchains/pagecache.go: a page is walked once and
    later lookups are a binary search, with exactly the plain walker's answers. */
module PageCache {
  import opened Basics
  import opened ChainWalk
  import opened PageTrace

  /** The result of walking every chain of one page once, with the inputs it depends on. */
  datatype ChainPage = ChainPage(
    format: u16, pageSize: u16, pageCount: u16, segOffset: u64, pageStart: u16, chainStarts: seq<u16>,
    complete: bool, offsets: seq<nat>, raws: seq<nat>)

  predicate Matches(p: ChainPage, start: Starts, pageStart: u16, chainStarts: seq<u16>) {
    && p.format == start.format && p.pageSize == start.pageSize && p.pageCount == start.pageCount
    && p.segOffset == start.segmentOffset && p.pageStart == pageStart && p.chainStarts == chainStarts
  }

  /** The part of a record the walk of a page depends on. */
  function Recorded(start: Starts): Starts { start.(pageStarts := [], chainStarts := []) }

  /** The record a page was built from, as far as the walk can tell. */
  function Inputs(p: ChainPage): Starts {
    Starts(p.format, p.pageSize, p.pageCount, p.segOffset, [], [])
  }

  /** The chains a page walks: its own start, or the trailing starts of a multi-start page. */
  function Chains(p: ChainPage): seq<u16> {
    if p.chainStarts == [] then [p.pageStart] else p.chainStarts
  }

  ghost predicate Ascending(offsets: seq<nat>) {
    forall i, j :: 0 <= i < j < |offsets| ==> offsets[i] < offsets[j]
  }

  /** The page holds exactly the distinct links of its walk, each with its raw word, and is
      complete exactly if the walk came to the end of the last chain. */
  ghost predicate Served(image: Image, pcs: u64, p: ChainPage) {
    && Ascending(p.offsets)
    && if Walkable(Inputs(p), pcs) then
         var t := PageWalk(image, Inputs(p), pcs, Chains(p));
         SameLinks(t.offsets, t.raws, p.offsets, p.raws) && (p.complete <==> t.stop == AtEnd)
       else p.offsets == [] && p.raws == [] && !p.complete
  }

  // ---- The walk depends on the recorded inputs only ----

  lemma {:induction false} SameChain(image: Image, a: Starts, b: Starts, pcs: u64, cur: nat, target: nat)
    requires a.(pageStarts := [], chainStarts := []) == b.(pageStarts := [], chainStarts := [])
    ensures WalkChain(image, a, pcs, cur, target) == WalkChain(image, b, pcs, cur, target)
    decreases a.pageSize - cur
  {
    var location := CheckedLocation(a, pcs, cur);
    assert location == CheckedLocation(b, pcs, cur);
    if location.Some? {
      var raw := RawAt(image, a.format, location.value);
      if raw.Some? {
        var l := LinkAfter(a, cur, raw.value);
        assert l == LinkAfter(b, cur, raw.value);
        if l.LinkAt? {
          SameChain(image, a, b, pcs, l.next, target);
        }
      }
    }
  }

  lemma {:induction false} SameWalk(image: Image, a: Starts, b: Starts, pcs: u64, chains: seq<u16>, target: nat)
    requires a.(pageStarts := [], chainStarts := []) == b.(pageStarts := [], chainStarts := [])
    ensures WalkChains(image, a, pcs, chains, target) == WalkChains(image, b, pcs, chains, target)
  {
    if chains != [] {
      SameChain(image, a, b, pcs, chains[0], target);
      SameWalk(image, a, b, pcs, chains[1..], target);
    }
  }

  // ---- Building a page ----

  /** The page buffer: span bytes from the page start, as many as the data has. */
  function Available(image: Image, pcs: nat, span: nat): (n: nat)
    ensures n <= span
  {
    if pcs >= |image.data| then 0 else if |image.data| - pcs < span then |image.data| - pcs else span
  }

  lemma BufferedRead(image: Image, format: u16, pcs: u64, cur: nat, pageSize: nat)
    requires cur <= pageSize && PointerSize(format) > 0
    ensures RawAt(image, format, pcs + cur).Some? <==> cur + PointerSize(format) <= Available(image, pcs, pageSize + PointerSize(format))
  {
  }

  /** The links so far, with the rest of the walk behind them. */
  ghost predicate Ahead(whole: Trace, offsets: seq<nat>, raws: seq<nat>, rest: Trace) {
    |offsets| == |raws| && whole == Append(Trace(offsets, raws, AtEnd), rest)
  }

  /** The inner loop of buildChainPage: follows chain c from its start, keeping links, until
      it ends or the walk stops. */
  method WalkLinks(image: Image, start: Starts, pcs: u64, chains: seq<u16>, c: nat, stride: u64, maxLinks: nat, avail: nat,
                   offsets0: seq<nat>, raws0: seq<nat>)
    returns (offsets: seq<nat>, raws: seq<nat>, ok: bool)
    requires c < |chains| && Walkable(start, pcs) && Stride(start.format) == Some(stride) && maxLinks == MaxLinks(start)
    requires avail == Available(image, pcs, start.pageSize + PointerSize(start.format))
    requires |offsets0| <= maxLinks
    requires Ahead(PageWalk(image, start, pcs, chains), offsets0, raws0,
                   ChainsTrace(image, start, pcs, chains[c..], maxLinks - |offsets0|))
    ensures |offsets| == |raws| <= maxLinks
    ensures ok ==> Ahead(PageWalk(image, start, pcs, chains), offsets, raws,
                         ChainsTrace(image, start, pcs, chains[c + 1..], maxLinks - |offsets|))
    ensures !ok ==> var t := PageWalk(image, start, pcs, chains); t.offsets == offsets && t.raws == raws && t.stop != AtEnd
  {
    hide RawAt, CheckedLocation, LinkAfter, ChainTrace, ChainsTrace, RestTrace, PageWalk, Ahead, Available, MaxLinks;
    var ptrSize := PointerSize(start.format);
    offsets, raws := offsets0, raws0;
    var cur: nat := chains[c];
    ghost var whole := PageWalk(image, start, pcs, chains);
    EnterChain(image, start, pcs, chains, c, maxLinks - |offsets|);
    SameLength(whole, offsets, raws, RestTrace(image, start, pcs, cur, chains[c + 1..], maxLinks - |offsets|));
    while true
      invariant |offsets| == |raws| <= maxLinks
      invariant Ahead(whole, offsets, raws, RestTrace(image, start, pcs, cur, chains[c + 1..], maxLinks - |offsets|))
      decreases start.pageSize + 1 - cur
    {
      var room := maxLinks - |offsets|;
      RestSteps(image, start, pcs, cur, chains[c + 1..], room);
      var location := CheckedLocation(start, pcs, cur);
      if location == None {
        NothingAhead(whole, offsets, raws, OffSegment);
        return offsets, raws, false;
      }
      BufferedRead(image, start.format, pcs, cur, start.pageSize);
      if cur + ptrSize > avail || |offsets| >= maxLinks {
        NothingAhead(whole, offsets, raws, if cur + ptrSize > avail then ShortRead else Capped);
        return offsets, raws, false;
      }
      var raw := RawAt(image, start.format, pcs + cur).value;
      match LinkAfter(start, cur, raw) {
        case BadLink =>
          OneAhead(whole, offsets, raws, cur, raw, Trace([], [], BadNext));
          offsets, raws := offsets + [cur], raws + [raw];
          NothingAhead(whole, offsets, raws, BadNext);
          return offsets, raws, false;
        case LastLink =>
          OneAhead(whole, offsets, raws, cur, raw, ChainsTrace(image, start, pcs, chains[c + 1..], room - 1));
          return offsets + [cur], raws + [raw], true;
        case LinkAt(next) =>
          OneAhead(whole, offsets, raws, cur, raw, RestTrace(image, start, pcs, next, chains[c + 1..], room - 1));
          offsets, raws, cur := offsets + [cur], raws + [raw], next;
      }
    }
  }

  lemma EnterChain(image: Image, start: Starts, pcs: u64, chains: seq<u16>, c: nat, room: nat)
    requires c < |chains|
    ensures ChainsTrace(image, start, pcs, chains[c..], room) == RestTrace(image, start, pcs, chains[c], chains[c + 1..], room)
  {
    assert chains[c..][0] == chains[c] && chains[c..][1..] == chains[c + 1..];
  }

  lemma SameLength(whole: Trace, offsets: seq<nat>, raws: seq<nat>, rest: Trace)
    requires Ahead(whole, offsets, raws, rest)
    ensures |offsets| == |raws|
  {
  }

  lemma NothingAhead(whole: Trace, offsets: seq<nat>, raws: seq<nat>, stop: Stop)
    requires Ahead(whole, offsets, raws, Trace([], [], stop))
    ensures whole == Trace(offsets, raws, stop)
  {
  }

  lemma OneAhead(whole: Trace, offsets: seq<nat>, raws: seq<nat>, cur: nat, raw: nat, rest: Trace)
    requires Ahead(whole, offsets, raws, Append(Trace([cur], [raw], AtEnd), rest))
    ensures Ahead(whole, offsets + [cur], raws + [raw], rest)
  {
  }

  /** One turn of the loop on the specification's side. */
  lemma RestSteps(image: Image, start: Starts, pcs: u64, cur: nat, chains: seq<u16>, room: nat)
    ensures RestTrace(image, start, pcs, cur, chains, room) ==
            match CheckedLocation(start, pcs, cur)
            case None => Trace([], [], OffSegment)
            case Some(location) =>
              match RawAt(image, start.format, location)
              case None => Trace([], [], ShortRead)
              case Some(raw) =>
                if room == 0 then Trace([], [], Capped)
                else
                  match LinkAfter(start, cur, raw)
                  case BadLink => Append(Trace([cur], [raw], AtEnd), Trace([], [], BadNext))
                  case LastLink => Append(Trace([cur], [raw], AtEnd), ChainsTrace(image, start, pcs, chains, room - 1))
                  case LinkAt(next) => Append(Trace([cur], [raw], AtEnd), RestTrace(image, start, pcs, next, chains, room - 1))
  {
    hide RawAt, CheckedLocation, LinkAfter, ChainsTrace;
    var location := CheckedLocation(start, pcs, cur);
    if location.Some? && room > 0 {
      var raw := RawAt(image, start.format, location.value);
      if raw.Some? {
        var l := LinkAfter(start, cur, raw.value);
        if l.LinkAt? {
          var head, t := Trace([cur], [raw.value], AtEnd), ChainTrace(image, start, pcs, l.next, room - 1);
          AppendTwice(head, t, ChainsTrace(image, start, pcs, chains, room - 1 - |t.offsets|));
        }
      }
    }
  }

  lemma AppendTwice(a: Trace, b: Trace, c: Trace)
    ensures Append(Append(a, b), c) == Append(a, Append(b, c))
  {
    assert a.offsets + b.offsets + c.offsets == a.offsets + (b.offsets + c.offsets);
    assert a.raws + b.raws + c.raws == a.raws + (b.raws + c.raws);
  }

  // ---- Sorting overlapping chains ----

  method StrictlyIncreasing(offsets: seq<nat>) returns (b: bool)
    ensures b <==> Ascending(offsets)
  {
    if |offsets| == 0 {
      return true;
    }
    for i := 1 to |offsets|
      invariant Ascending(offsets[..i])
    {
      if offsets[i] <= offsets[i - 1] {
        return false;
      }
      assert forall k :: 0 <= k < i ==> offsets[..i][k] <= offsets[..i][i - 1];
    }
    assert offsets[..|offsets|] == offsets;
    b := true;
  }

  /** idx lists positions in ascending order of their offsets. */
  ghost predicate InOrder(offsets: seq<nat>, idx: seq<nat>) {
    && (forall i :: 0 <= i < |idx| ==> idx[i] < |offsets|)
    && (forall i, j :: 0 <= i < j < |idx| ==> offsets[idx[i]] <= offsets[idx[j]])
  }

  lemma InsertPosition(offsets: seq<nat>, idx: seq<nat>, at: nat, n: nat)
    requires InOrder(offsets, idx) && at <= |idx| && n < |offsets|
    requires at > 0 ==> offsets[idx[at - 1]] <= offsets[n]
    requires forall i :: at <= i < |idx| ==> offsets[idx[i]] > offsets[n]
    ensures InOrder(offsets, idx[..at] + [n] + idx[at..])
    ensures forall k :: k in idx || k == n ==> k in idx[..at] + [n] + idx[at..]
  {
    InsertedInOrder(offsets, idx, at, n);
    InsertedHas(idx, at, n);
  }

  lemma InsertedInOrder(offsets: seq<nat>, idx: seq<nat>, at: nat, n: nat)
    requires InOrder(offsets, idx) && at <= |idx| && n < |offsets|
    requires at > 0 ==> offsets[idx[at - 1]] <= offsets[n]
    requires at < |idx| ==> offsets[idx[at]] > offsets[n]
    ensures InOrder(offsets, idx[..at] + [n] + idx[at..])
  {
    var longer := idx[..at] + [n] + idx[at..];
    forall i | 0 <= i < |longer|
      ensures longer[i] == (if i < at then idx[i] else if i == at then n else idx[i - 1]) && longer[i] < |offsets| {
    }
    forall i, j | 0 <= i < j < |longer| ensures offsets[longer[i]] <= offsets[longer[j]] {
      if i < at {
        assert offsets[idx[i]] <= offsets[idx[at - 1]];
      }
      if at < j {
        assert offsets[idx[at]] <= offsets[idx[j - 1]];
      }
    }
  }

  lemma InsertedHas(idx: seq<nat>, at: nat, n: nat)
    requires at <= |idx|
    ensures forall k :: k in idx || k == n ==> k in idx[..at] + [n] + idx[at..]
  {
    assert idx == idx[..at] + idx[at..];
  }

  /** Some order of the positions by offset; nothing is promised about equal offsets. */
  method SortPositions(offsets: seq<nat>) returns (idx: seq<nat>)
    ensures InOrder(offsets, idx)
    ensures forall k: nat :: k < |offsets| ==> k in idx
  {
    idx := [];
    for n := 0 to |offsets|
      invariant InOrder(offsets, idx)
      invariant forall k: nat :: k < n ==> k in idx
    {
      var at := |idx|;
      while at > 0 && offsets[idx[at - 1]] > offsets[n]
        invariant 0 <= at <= |idx|
        invariant forall i :: at <= i < |idx| ==> offsets[idx[i]] > offsets[n]
      {
        at := at - 1;
      }
      InsertPosition(offsets, idx, at, n);
      idx := idx[..at] + [n] + idx[at..];
    }
  }

  /** The output links are the input links at positions src. */
  ghost predicate Picks(offsets: seq<nat>, raws: seq<nat>, src: seq<nat>, outOffsets: seq<nat>, outRaws: seq<nat>) {
    && |offsets| == |raws| && |outOffsets| == |outRaws| == |src|
    && forall k :: 0 <= k < |src| ==> src[k] < |offsets| && outOffsets[k] == offsets[src[k]] && outRaws[k] == raws[src[k]]
  }

  /** The same links, each location once. */
  ghost predicate SameLinks(offsets: seq<nat>, raws: seq<nat>, outOffsets: seq<nat>, outRaws: seq<nat>) {
    && (exists src :: Picks(offsets, raws, src, outOffsets, outRaws))
    && (forall i :: 0 <= i < |offsets| ==> offsets[i] in outOffsets)
  }

  /** sortChainLinks: ascending order, each location kept once; which duplicate survives is
      irrelevant because the contract holds for every order SortPositions may pick. */
  method SortChainLinks(offsets: seq<nat>, raws: seq<nat>) returns (outOffsets: seq<nat>, outRaws: seq<nat>)
    requires |offsets| == |raws|
    ensures Ascending(outOffsets) && SameLinks(offsets, raws, outOffsets, outRaws)
  {
    hide Picks, Ascending, SameLinks;
    var idx := SortPositions(offsets);
    outOffsets, outRaws := [], [];
    ghost var src: seq<nat> := [];
    NothingPicked(offsets, raws);
    for j := 0 to |idx|
      invariant Picks(offsets, raws, src, outOffsets, outRaws) && Ascending(outOffsets)
      invariant forall m :: 0 <= m < j ==> offsets[idx[m]] in outOffsets
      invariant |outOffsets| == |outRaws|
      invariant if j == 0 then outOffsets == [] else outOffsets != [] && outOffsets[|outOffsets| - 1] == offsets[idx[j - 1]]
    {
      var i := idx[j];
      var n := |outOffsets|;
      if n > 0 && outOffsets[n - 1] == offsets[i] {
        continue;
      }
      OneMorePicked(offsets, raws, src, outOffsets, outRaws, i);
      outOffsets, outRaws, src := outOffsets + [offsets[i]], outRaws + [raws[i]], src + [i];
    }
    forall i | 0 <= i < |offsets|
      ensures offsets[i] in outOffsets
    {
      assert i in idx;
      var m :| 0 <= m < |idx| && idx[m] == i;
    }
    AllPicked(offsets, raws, src, outOffsets, outRaws);
  }

  lemma NothingPicked(offsets: seq<nat>, raws: seq<nat>)
    requires |offsets| == |raws|
    ensures Picks(offsets, raws, [], [], []) && Ascending([])
  {
  }

  lemma OneMorePicked(offsets: seq<nat>, raws: seq<nat>, src: seq<nat>, outOffsets: seq<nat>, outRaws: seq<nat>, i: nat)
    requires Picks(offsets, raws, src, outOffsets, outRaws) && Ascending(outOffsets) && i < |offsets| == |raws|
    requires outOffsets != [] ==> outOffsets[|outOffsets| - 1] < offsets[i]
    ensures Picks(offsets, raws, src + [i], outOffsets + [offsets[i]], outRaws + [raws[i]])
    ensures Ascending(outOffsets + [offsets[i]])
  {
    assert forall k :: 0 <= k < |outOffsets| ==> outOffsets[k] <= outOffsets[|outOffsets| - 1];
  }

  lemma AllPicked(offsets: seq<nat>, raws: seq<nat>, src: seq<nat>, outOffsets: seq<nat>, outRaws: seq<nat>)
    requires Picks(offsets, raws, src, outOffsets, outRaws) && forall i :: 0 <= i < |offsets| ==> offsets[i] in outOffsets
    ensures SameLinks(offsets, raws, outOffsets, outRaws)
  {
  }

  lemma LinksAreSame(offsets: seq<nat>, raws: seq<nat>)
    requires |offsets| == |raws|
    ensures SameLinks(offsets, raws, offsets, raws)
  {
    var src := seq(|offsets|, (i: nat) => i);
    assert Picks(offsets, raws, src, offsets, raws);
  }

  /** buildChainPage: the page has exactly the links of the one walk, whatever stops it. */
  method BuildChainPage(image: Image, start: Starts, pageStart: u16, multi: seq<u16>, pcs: u64) returns (page: ChainPage)
    requires |image.data| <= MAX_INT64
    ensures Matches(page, start, pageStart, multi) && Served(image, pcs, page)
  {
    hide ChainsTrace, PageWalk, Ahead, SameLinks, Ascending, MaxLinks, Available;
    page := ChainPage(start.format, start.pageSize, start.pageCount, start.segmentOffset, pageStart, multi, false, [], []);
    NoneAscend();
    var inputs, chains := Inputs(page), Chains(page);
    var ptrSize := PointerSize(page.format);
    var strideVal := Stride(page.format);
    if (ptrSize != 4 && ptrSize != 8) || strideVal == None || strideVal.value == 0 || page.pageSize == 0 {
      return;
    }
    var span := page.pageSize + ptrSize;
    if pcs > MAX_INT64 - span {
      return;
    }
    var avail := Available(image, pcs, span);
    var maxLinks := page.pageSize / strideVal.value + 2;
    var offsets: seq<nat>, raws: seq<nat>, complete := [], [], true;
    ghost var whole := PageWalk(image, inputs, pcs, chains);
    MaxLinksIs(inputs);
    AllAhead(image, inputs, pcs, chains);
    for c := 0 to |chains|
      invariant |offsets| == |raws| <= maxLinks
      invariant Ahead(whole, offsets, raws, ChainsTrace(image, inputs, pcs, chains[c..], maxLinks - |offsets|))
    {
      var ok;
      offsets, raws, ok := WalkLinks(image, inputs, pcs, chains, c, strideVal.value, maxLinks, avail, offsets, raws);
      if !ok {
        complete := false;
        break;
      }
    }
    if complete {
      AllWalked(image, inputs, pcs, chains, maxLinks - |offsets|);
      NothingAhead(whole, offsets, raws, AtEnd);
    }
    assert whole == Trace(offsets, raws, whole.stop) && (complete <==> whole.stop == AtEnd);
    LinksAreSame(offsets, raws);
    if |chains| > 1 {
      var sorted := StrictlyIncreasing(offsets);
      if !sorted {
        offsets, raws := SortChainLinks(offsets, raws);
      }
    } else {
      OneChainAscends(image, inputs, pcs, chains);
    }
    page := page.(offsets := offsets, raws := raws, complete := complete);
  }

  lemma NoneAscend()
    ensures Ascending([])
  {
  }

  lemma MaxLinksIs(start: Starts)
    requires Stride(start.format).Some?
    ensures MaxLinks(start) == start.pageSize / Stride(start.format).value + 2
  {
  }

  lemma AllAhead(image: Image, start: Starts, pcs: u64, chains: seq<u16>)
    requires Walkable(start, pcs)
    ensures Ahead(PageWalk(image, start, pcs, chains), [], [], ChainsTrace(image, start, pcs, chains[0..], MaxLinks(start)))
  {
    hide ChainsTrace;
    assert chains[0..] == chains;
    var t := ChainsTrace(image, start, pcs, chains, MaxLinks(start));
    assert [] + t.offsets == t.offsets && [] + t.raws == t.raws;
  }

  lemma AllWalked(image: Image, start: Starts, pcs: u64, chains: seq<u16>, room: nat)
    ensures ChainsTrace(image, start, pcs, chains[|chains|..], room) == Trace([], [], AtEnd)
  {
  }

  lemma OneChainAscends(image: Image, start: Starts, pcs: u64, chains: seq<u16>)
    requires Walkable(start, pcs) && |chains| == 1
    ensures Ascending(PageWalk(image, start, pcs, chains).offsets)
  {
    hide PageWalk;
    assert chains == [chains[0]];
    OneChainIsNotCapped(image, start, pcs, chains[0]);
  }

  // ---- Answering lookups ----

  /** What a lookup reports: the decoded word, "no fixup at this offset", or an error. */
  datatype Lookup<T> = Decoded(fixup: T) | NoFixup | Failed

  /** The plain walker's answer. */
  function Plain<T>(image: Image, decode: (u16, nat, nat) -> T, start: Starts, pageStart: u16, pcs: u64, target: nat): Lookup<T> {
    match StartsForPage(start, pageStart)
    case None => Failed
    case Some(chains) =>
      match WalkChains(image, start, pcs, chains, target)
      case Reached(raw) => Decoded(decode(start.format, raw, pcs + target))
      case Ended => NoFixup
      case Broken => Failed
  }

  /** sort.Search for the first offset not below target. */
  method SearchOffsets(offsets: seq<nat>, target: nat) returns (i: nat)
    requires Ascending(offsets)
    ensures i <= |offsets|
    ensures i < |offsets| && offsets[i] == target <==> target in offsets
  {
    var lo, hi := 0, |offsets|;
    while lo < hi
      invariant 0 <= lo <= hi <= |offsets|
      invariant forall k :: 0 <= k < lo ==> offsets[k] < target
      invariant forall k :: hi <= k < |offsets| ==> offsets[k] >= target
    {
      var h := (lo + hi) / 2;
      if offsets[h] < target {
        lo := h + 1;
      } else {
        hi := h;
      }
    }
    i := lo;
    if target in offsets {
      var k :| 0 <= k < |offsets| && offsets[k] == target;
      assert k >= i;
      var at := offsets[i];
    }
  }

  /** The page can be walked, and its walk meets the offset or ends without an anomaly. */
  ghost predicate CanAnswer(image: Image, start: Starts, pageStart: u16, pcs: u64, offset: nat) {
    && StartsForPage(start, pageStart).Some? && Walkable(start, pcs)
    && var t := PageWalk(image, Recorded(start), pcs, StartsForPage(start, pageStart).value);
       offset in t.offsets || t.stop == AtEnd
  }

  lemma PageAscends(image: Image, pcs: u64, p: ChainPage)
    requires Served(image, pcs, p)
    ensures Ascending(p.offsets) && |p.offsets| == |p.raws|
  {
    hide PageWalk;
  }

  lemma {:induction false} LinkSurvives(offsets: seq<nat>, raws: seq<nat>, outOffsets: seq<nat>, outRaws: seq<nat>, i: nat)
    requires SameLinks(offsets, raws, outOffsets, outRaws) && i < |outOffsets|
    ensures |outOffsets| == |outRaws| && |offsets| == |raws|
    ensures exists k :: 0 <= k < |offsets| && outOffsets[i] == offsets[k] && outRaws[i] == raws[k]
  {
    var src :| Picks(offsets, raws, src, outOffsets, outRaws);
    assert outOffsets[i] == offsets[src[i]] && outRaws[i] == raws[src[i]];
  }

  /** A lookup on a page that can be walked is left to the walker only if the walker fails on it,
      or if the cap cut the walk off. */
  lemma LeftToWalkerIsBroken(image: Image, start: Starts, pageStart: u16, pcs: u64, offset: nat)
    requires StartsForPage(start, pageStart).Some? && Walkable(start, pcs) && !CanAnswer(image, start, pageStart, pcs, offset)
    ensures var chains := StartsForPage(start, pageStart).value;
            PageWalk(image, Recorded(start), pcs, chains).stop == Capped || WalkChains(image, start, pcs, chains, offset) == Broken
  {
    hide WalkChains, RawAt, ChainsTrace, StartsForPage;
    var chains := StartsForPage(start, pageStart).value;
    TraceDecides(image, Recorded(start), pcs, chains, MaxLinks(start), offset);
    SameWalk(image, start, Recorded(start), pcs, chains, offset);
  }

  /** What a page says about an offset is what the walker finds. */
  lemma PageAnswers(image: Image, start: Starts, pcs: u64, p: ChainPage, offset: nat)
    requires Served(image, pcs, p) && Inputs(p) == Recorded(start)
    ensures Walkable(start, pcs) ==>
              var t := PageWalk(image, Recorded(start), pcs, Chains(p));
              && (offset in p.offsets <==> offset in t.offsets) && (p.complete <==> t.stop == AtEnd)
    ensures !Walkable(start, pcs) ==> offset !in p.offsets && !p.complete
    ensures |p.offsets| == |p.raws|
    ensures forall i :: 0 <= i < |p.offsets| && p.offsets[i] == offset ==>
              WalkChains(image, start, pcs, Chains(p), offset) == Reached(p.raws[i])
    ensures offset !in p.offsets && p.complete ==> WalkChains(image, start, pcs, Chains(p), offset) == Ended
  {
    hide WalkChains, RawAt, ChainsTrace, SameLinks, Ascending;
    if Walkable(start, pcs) {
      var t := PageWalk(image, Inputs(p), pcs, Chains(p));
      TraceDecides(image, Inputs(p), pcs, Chains(p), MaxLinks(Inputs(p)), offset);
      SameWalk(image, start, Inputs(p), pcs, Chains(p), offset);
      NoneLost(t.offsets, t.raws, p.offsets, p.raws);
      forall i | 0 <= i < |p.offsets| ensures |p.offsets| == |p.raws| && p.offsets[i] in t.offsets
        ensures RawAt(image, p.format, pcs + p.offsets[i]) == Some(p.raws[i]) {
        LinkSurvives(t.offsets, t.raws, p.offsets, p.raws, i);
      }
    }
  }

  lemma NoneLost(offsets: seq<nat>, raws: seq<nat>, outOffsets: seq<nat>, outRaws: seq<nat>)
    requires SameLinks(offsets, raws, outOffsets, outRaws)
    ensures |outOffsets| == |outRaws| && forall offset :: offset in offsets ==> offset in outOffsets
  {
  }

  class ChainedFixups<T> {
    const image: Image
    const decode: (u16, nat, nat) -> T
    const hasReader: bool
    var disablePageCache: bool
    var pageCache: map<u64, ChainPage>

    ghost predicate Valid()
      reads this
    {
      && |image.data| <= MAX_INT64
      && forall pcs :: pcs in pageCache ==> Served(image, pcs, pageCache[pcs])
    }

    constructor (image: Image, decode: (u16, nat, nat) -> T, hasReader: bool)
      requires |image.data| <= MAX_INT64
      ensures Valid() && this.image == image && this.decode == decode
    {
      this.image, this.decode, this.hasReader := image, decode, hasReader;
      disablePageCache, pageCache := false, map[];
    }

    /** A valid cached page for these inputs, walked now unless it is already there. */
    method PageFor(start: Starts, pageStart: u16, multi: seq<u16>, pcs: u64) returns (page: ChainPage)
      requires Valid()
      modifies this`pageCache
      ensures Valid()
      ensures Matches(page, start, pageStart, multi) && Served(image, pcs, page)
    {
      hide Served;
      if pcs in pageCache && Matches(pageCache[pcs], start, pageStart, multi) {
        return pageCache[pcs];
      }
      page := BuildChainPage(image, start, pageStart, multi, pcs);
      pageCache := pageCache[pcs := page];
    }

    /** cachedFixupInPage: it handles a lookup exactly if the page can be walked and the walk
        either meets the offset or comes to its end; its answer is then the plain walker's. */
    method CachedFixupInPage(start: Starts, pageStart: u16, pcs: u64, offsetInPage: nat) returns (answer: Lookup<T>, handled: bool)
      requires Valid() && pageStart != START_NONE
      modifies this`pageCache
      ensures Valid()
      ensures handled ==> answer == Plain(image, decode, start, pageStart, pcs, offsetInPage)
      ensures handled <==> hasReader && !disablePageCache && CanAnswer(image, start, pageStart, pcs, offsetInPage)
    {
      hide WalkChains, RawAt, Served, PageWalk, Ascending;
      if !hasReader || disablePageCache {
        return Failed, false;
      }
      var multi: seq<u16> := [];
      if Multi(pageStart) {
        var chains := ChainStartsForPage(start, pageStart);
        if chains == None {
          return Failed, false;
        }
        multi := chains.value;
      } else if pageStart > start.pageSize {
        return Failed, false;
      }
      var page := PageFor(start, pageStart, multi, pcs);
      PageAscends(image, pcs, page);
      PageAnswers(image, start, pcs, page, offsetInPage);
      var i := SearchOffsets(page.offsets, offsetInPage);
      if i == |page.offsets| || page.offsets[i] != offsetInPage {
        return NoFixup, page.complete;
      }
      answer, handled := Decoded(decode(start.format, page.raws[i], pcs + offsetInPage)), true;
    }

    /** GetFixupAtOffset for an offset of the segment start describes. */
    method GetFixupAtOffset(start: Starts, offset: u64) returns (answer: Lookup<T>)
      requires Valid()
      modifies this`pageCache
      ensures Valid()
      ensures answer == PlainAtOffset(image, decode, start, offset)
    {
      hide Plain, Stride, PointerSize;
      if start.pageSize == 0 || offset < start.segmentOffset {
        return Failed;
      }
      var pageIndex := (offset - start.segmentOffset) / start.pageSize;
      if pageIndex >= |start.pageStarts| {
        return Failed;
      }
      var pageStart := start.pageStarts[pageIndex];
      if pageStart == START_NONE {
        return NoFixup;
      }
      var strideVal := Stride(start.format);
      if PointerSize(start.format) == 0 || strideVal == None {
        return Failed;
      }
      PageStartsBelow(start, offset);
      var pcs: u64 := start.segmentOffset + pageIndex * start.pageSize;
      var offsetInPage: nat := offset - pcs;
      if offsetInPage % strideVal.value != 0 {
        return NoFixup;
      }
      answer := FixupInPage(start, pageStart, pcs, offsetInPage);
    }

    /** The fast path, and the walker whenever the page cannot be served from the cache. */
    method FixupInPage(start: Starts, pageStart: u16, pcs: u64, offsetInPage: nat) returns (answer: Lookup<T>)
      requires Valid() && pageStart != START_NONE
      modifies this`pageCache
      ensures Valid()
      ensures answer == Plain(image, decode, start, pageStart, pcs, offsetInPage)
    {
      hide WalkChains, StartsForPage;
      var handled;
      answer, handled := CachedFixupInPage(start, pageStart, pcs, offsetInPage);
      if handled {
        return answer;
      }
      var chains := ChainStartsForPage(start, pageStart);
      if chains == None {
        return Failed;
      }
      var w := WalkPage(image, start, pcs, chains.value, offsetInPage);
      match w
      case Reached(raw) => answer := Decoded(decode(start.format, raw, pcs + offsetInPage));
      case Ended => answer := NoFixup;
      case Broken => answer := Failed;
    }
  }

  lemma PageStartsBelow(start: Starts, offset: u64)
    requires start.pageSize > 0 && offset >= start.segmentOffset
    ensures 0 <= (offset - start.segmentOffset) / start.pageSize * start.pageSize <= offset - start.segmentOffset
  {
  }

  /** GetFixupAtOffset with the cache disabled. */
  function PlainAtOffset<T>(image: Image, decode: (u16, nat, nat) -> T, start: Starts, offset: u64): Lookup<T> {
    if start.pageSize == 0 || offset < start.segmentOffset then Failed
    else
      var pageIndex := (offset - start.segmentOffset) / start.pageSize;
      if pageIndex >= |start.pageStarts| then Failed
      else if start.pageStarts[pageIndex] == START_NONE then NoFixup
      else if PointerSize(start.format) == 0 || Stride(start.format) == None then Failed
      else
        PageStartsBelow(start, offset);
        var pcs: u64 := start.segmentOffset + pageIndex * start.pageSize;
        if (offset - pcs) % Stride(start.format).value != 0 then NoFixup
        else Plain(image, decode, start, start.pageStarts[pageIndex], pcs, offset - pcs)
  }

  /** A lookup and the segment record the caller has in place at that moment. */
  datatype Query = Query(start: Starts, offset: u64)

  /** Over any sequence of lookups, with the records changed arbitrarily in between, every
      answer is the plain walker's for the record of that moment. */
  method Serve<T>(f: ChainedFixups<T>, queries: seq<Query>) returns (answers: seq<Lookup<T>>)
    requires f.Valid()
    modifies f`pageCache
    ensures f.Valid() && |answers| == |queries|
    ensures forall i :: 0 <= i < |queries| ==> answers[i] == PlainAtOffset(f.image, f.decode, queries[i].start, queries[i].offset)
  {
    answers := [];
    for i := 0 to |queries|
      invariant f.Valid() && |answers| == i
      invariant forall k :: 0 <= k < i ==> answers[k] == PlainAtOffset(f.image, f.decode, queries[k].start, queries[k].offset)
    {
      var answer := f.GetFixupAtOffset(queries[i].start, queries[i].offset);
      answers := answers + [answer];
    }
  }
}
