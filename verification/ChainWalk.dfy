/** Chained-fixup pointer formats and the link-by-link walker of
    pkg/fixupchains/fixupchains.go, which defines every answer about a page. */
module ChainWalk {
  import opened Basics

  /** One DyldChainedStarts record; callers may change it between lookups. */
  datatype Starts = Starts(
    format: u16, pageSize: u16, pageCount: u16, segmentOffset: u64,
    pageStarts: seq<u16>, chainStarts: seq<u16>)

  /** The bytes behind the section reader and their order. */
  datatype Image = Image(data: seq<byte>, bigEndian: bool)

  const START_NONE: u16 := 0xFFFF
  const START_MULTI: u16 := 0x8000
  const START_LAST: u16 := 0x8000

  predicate Multi(pageStart: u16) { pageStart >= START_MULTI }

  // ---- Formats ----

  function Stride(format: u16): (s: Option<u64>)
    ensures s.Some? ==> s.value in {1, 4, 8}
  {
    if format in {1, 9, 12, 13, 15} then Some(8)
    else if format in {2, 3, 4, 5, 6, 7, 8, 10, 14, 16} then Some(4)
    else if format == 11 then Some(1)
    else None
  }

  function PointerSize(format: u16): (n: nat)
    ensures n in {0, 4, 8}
  {
    if format in {3, 4, 5} then 4 else if 1 <= format <= 16 then 8 else 0
  }

  datatype BitField = BitField(shift: nat, width: nat)

  /** Where a format keeps the distance to the next link. */
  function NextField(format: u16): (b: Option<BitField>)
    ensures b.Some? ==> b.value.width <= 16
  {
    if format == 3 then Some(BitField(26, 5))
    else if format == 4 then Some(BitField(30, 2))
    else if format == 5 then Some(BitField(26, 6))
    else if format in {2, 6, 8, 11, 14} then Some(BitField(51, 12))
    else if format in {1, 7, 9, 10, 12, 15} then Some(BitField(51, 11))
    else if format == 13 then Some(BitField(52, 11))
    else if format == 16 then Some(BitField(40, 16))
    else None
  }

  /** The "next" field of a raw pointer, in strides. */
  function ChainNext(format: u16, raw: nat): (next: Option<nat>)
    ensures next.Some? ==> next.value < 0x1_0000
  {
    match NextField(format)
    case None => None
    case Some(f) => FieldBound(f.width); Some(raw / Pow2(f.shift) % Pow2(f.width))
  }

  lemma {:induction false} FieldBound(width: nat)
    requires width <= 16
    ensures Pow2(width) <= 0x1_0000
    decreases 16 - width
  {
    if width == 16 {
      assert Pow2(8) == 256;
      Pow2Add(8, 8);
    } else {
      FieldBound(width + 1);
    }
  }

  /** next * stride in uint64; a real link always moves forward. */
  function StepBytes(next: nat, stride: u64): (step: u64)
    ensures 0 < next < 0x1_0000 && stride in {1, 4, 8} ==> step == next * stride && step >= stride
  {
    (next * stride) % U64
  }

  // ---- Reading ----

  /** readRawPointer: a whole pointer at location, or None for a short read. */
  function RawAt(image: Image, format: u16, location: nat): Option<nat> {
    var size := PointerSize(format);
    if size == 0 || location + size > |image.data| then None
    else Some(WordOf(image.data[location..location + size], image.bigEndian))
  }

  /** checkedChainFixupLocation. */
  function CheckedLocation(start: Starts, pageContentStart: u64, offsetInPage: nat): (location: Option<u64>)
    ensures location.Some? ==>
              && location.value == pageContentStart + offsetInPage
              && offsetInPage <= start.pageSize
  {
    var pageSize := start.pageSize;
    if pageSize == 0 || offsetInPage > pageSize then None
    else if pageContentStart > U64 - 1 - offsetInPage then None
    else
      var location := pageContentStart + offsetInPage;
      var pointerBytes := PointerSize(start.format);
      var segmentBytes := start.pageCount * pageSize;
      if pointerBytes == 0 then None
      else if segmentBytes < pointerBytes || start.segmentOffset > U64 - 1 - segmentBytes then None
      else if location < start.segmentOffset || location - start.segmentOffset > segmentBytes - pointerBytes then None
      else Some(location)
  }

  // ---- Chain starts ----

  function Offset(entry: u16): (r: u16) {
    if entry >= START_LAST then entry - START_LAST else entry
  }

  /** The chains of a multi-start page, from trailing entry i on. */
  function TrailingStarts(start: Starts, i: nat, previous: u16): (r: Option<seq<u16>>)
    ensures r.Some? ==> r.value != []
    decreases |start.chainStarts| - i
  {
    if i >= |start.chainStarts| then None
    else
      var entry := start.chainStarts[i];
      var offset := Offset(entry);
      if offset > start.pageSize then None
      else if previous != 0 && offset <= previous then None
      else if entry >= START_LAST then Some([offset])
      else
        match TrailingStarts(start, i + 1, offset)
        case None => None
        case Some(rest) => Some([offset] + rest)
  }

  /** chainStartsForPage. */
  function StartsForPage(start: Starts, pageStart: u16): (r: Option<seq<u16>>)
    ensures r.Some? && pageStart != START_NONE ==> r.value != []
  {
    if pageStart == START_NONE then Some([])
    else if !Multi(pageStart) then if pageStart > start.pageSize then None else Some([pageStart])
    else if start.format !in {3, 4, 5} then None
    else
      var chainIndex := Offset(pageStart) - |start.pageStarts|;
      if chainIndex < 0 then None else TrailingStarts(start, chainIndex, 0)
  }

  method ChainStartsForPage(start: Starts, pageStart: u16) returns (r: Option<seq<u16>>)
    ensures r == StartsForPage(start, pageStart)
  {
    if pageStart == START_NONE {
      return Some([]);
    }
    if !Multi(pageStart) {
      return if pageStart > start.pageSize then None else Some([pageStart]);
    }
    if start.format !in {3, 4, 5} {
      return None;
    }
    var combinedIndex := Offset(pageStart);
    var chainIndex: int := combinedIndex - |start.pageStarts|;
    if chainIndex < 0 || chainIndex >= |start.chainStarts| {
      return None;
    }
    var result: seq<u16>, previous: u16 := [], 0;
    ghost var all := TrailingStarts(start, chainIndex, 0);
    assert all.Some? ==> [] + all.value == all.value;
    while chainIndex < |start.chainStarts|
      invariant 0 <= chainIndex <= |start.chainStarts|
      invariant StartsForPage(start, pageStart) ==
                match TrailingStarts(start, chainIndex, previous)
                case None => None
                case Some(rest) => Some(result + rest)
    {
      var entry := start.chainStarts[chainIndex];
      var offset := Offset(entry);
      if offset > start.pageSize {
        return None;
      }
      if previous != 0 && offset <= previous {
        return None;
      }
      ghost var before := result;
      result := result + [offset];
      previous := offset;
      if entry >= START_LAST {
        return Some(result);
      }
      assert forall rest :: before + ([offset] + rest) == result + rest;
      chainIndex := chainIndex + 1;
    }
    r := None;
  }

  // ---- The walker ----

  datatype Walk = Reached(raw: nat) | Ended | Broken

  /** checkChainForOffset from cur on: the raw pointer at target, the end of the chain
      without meeting it, or an error. */
  function WalkChain(image: Image, start: Starts, pageContentStart: u64, cur: nat, target: nat): Walk
    decreases start.pageSize - cur
  {
    match CheckedLocation(start, pageContentStart, cur)
    case None => Broken
    case Some(location) =>
      match RawAt(image, start.format, location)
      case None => Broken
      case Some(raw) =>
        if cur == target then Reached(raw)
        else
          match LinkAfter(start, cur, raw)
          case BadLink => Broken
          case LastLink => Ended
          case LinkAt(next) => WalkChain(image, start, pageContentStart, next, target)
  }

  datatype Link = BadLink | LastLink | LinkAt(next: nat)

  /** Where the chain goes from a pointer read at cur. */
  function LinkAfter(start: Starts, cur: nat, raw: nat): (l: Link)
    ensures l.LinkAt? ==> cur < l.next <= start.pageSize && Stride(start.format).Some? && l.next >= cur + Stride(start.format).value
  {
    match (ChainNext(start.format, raw), Stride(start.format))
    case (Some(next), Some(stride)) =>
      if next == 0 then LastLink
      else
        var step := StepBytes(next, stride);
        if cur > U64 - 1 - step then BadLink
        else if cur + step > start.pageSize then LastLink
        else LinkAt(cur + step)
    case _ => BadLink
  }

  /** The chains of a page in order, stopping at the first hit or error. */
  function WalkChains(image: Image, start: Starts, pageContentStart: u64, chains: seq<u16>, target: nat): Walk {
    if chains == [] then Ended
    else
      match WalkChain(image, start, pageContentStart, chains[0], target)
      case Ended => WalkChains(image, start, pageContentStart, chains[1..], target)
      case w => w
  }

  /** The loop of checkChainForOffset. */
  method CheckChainForOffset(image: Image, start: Starts, pageContentStart: u64, chainStart: u16, target: nat) returns (w: Walk)
    ensures w == WalkChain(image, start, pageContentStart, chainStart, target)
  {
    hide RawAt, CheckedLocation, LinkAfter;
    var currentOffset: nat := chainStart;
    while true
      invariant WalkChain(image, start, pageContentStart, currentOffset, target) == WalkChain(image, start, pageContentStart, chainStart, target)
      decreases start.pageSize - currentOffset
    {
      var location := CheckedLocation(start, pageContentStart, currentOffset);
      if location == None {
        return Broken;
      }
      var raw := RawAt(image, start.format, location.value);
      if raw == None {
        return Broken;
      }
      if currentOffset == target {
        return Reached(raw.value);
      }
      match LinkAfter(start, currentOffset, raw.value) {
        case BadLink => return Broken;
        case LastLink => return Ended;
        case LinkAt(next) => currentOffset := next;
      }
    }
  }

  /** The loop over chain starts in GetFixupAtOffset. */
  method WalkPage(image: Image, start: Starts, pageContentStart: u64, chains: seq<u16>, target: nat) returns (w: Walk)
    ensures w == WalkChains(image, start, pageContentStart, chains, target)
  {
    hide WalkChain;
    for i := 0 to |chains|
      invariant WalkChains(image, start, pageContentStart, chains[i..], target) == WalkChains(image, start, pageContentStart, chains, target)
    {
      var found := CheckChainForOffset(image, start, pageContentStart, chains[i], target);
      assert chains[i..][1..] == chains[i + 1..];
      if !found.Ended? {
        return found;
      }
    }
    assert chains[|chains|..] == [];
    w := Ended;
  }
}
