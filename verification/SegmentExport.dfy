/** The export of a standalone file in export.go: the segments get their new layout, and the
    output is written segment by segment behind the rewritten header and load commands. */
module SegmentExport {
  import opened Basics
  import opened SegmentMap

  type Bytes = seq<byte>

  function PadTo(buf: Bytes, end: nat): (r: Bytes)
    ensures |r| == if |buf| < end then end else |buf|
    ensures r[..|buf|] == buf && forall i :: |buf| <= i < |r| ==> r[i] == 0
  {
    if |buf| < end then buf + Zeros(end - |buf|) else buf
  }

  function Max(a: nat, b: nat): nat { if a < b then b else a }

  // ---- The first section of __TEXT ----

  /** Where the sections of __TEXT begin, as textSegmentFirstSectionRelOff looks for it. */
  datatype TextSections = TextSections(offsets: seq<u32>, first: u32, count: u32)

  /** The first section from index i on that has file data. */
  function FirstWithData(t: TextSections, i: nat): (r: Option<Option<u32>>)
    requires i <= t.count
    decreases t.count - i
  {
    if i == t.count then Some(None)
    else if t.first + i >= |t.offsets| then None
    else if t.offsets[t.first + i] != 0 then Some(Some(t.offsets[t.first + i]))
    else FirstWithData(t, i + 1)
  }

  /** None is an error. */
  function FirstSectionRelOff(segs: seq<Segment>, t: TextSections): Option<nat> {
    match TextSegment(segs)
    case None => Some(0)
    case Some(text) =>
      match FirstWithData(t, 0)
      case None => None
      case Some(None) => Some(0)
      case Some(Some(off)) => if off < text.offset then None else Some(off - text.offset)
  }

  function TextSegment(segs: seq<Segment>): Option<Segment> {
    if segs == [] then None else if segs[0].name == TEXT then Some(segs[0]) else TextSegment(segs[1..])
  }

  method TextSegmentFirstSectionRelOff(segs: seq<Segment>, t: TextSections) returns (r: Option<nat>)
    ensures r == FirstSectionRelOff(segs, t)
  {
    var text := TextSegment(segs);
    if text == None {
      return Some(0);
    }
    for i := 0 to t.count
      invariant FirstWithData(t, 0) == FirstWithData(t, i)
    {
      var idx := t.first + i;
      if idx >= |t.offsets| {
        return None;
      }
      var offset := t.offsets[idx];
      if offset == 0 {
        continue;
      }
      if offset < text.value.offset {
        return None;
      }
      return Some(offset - text.value.offset);
    }
    r := Some(0);
  }

  /** The file offsets of the sections of __TEXT, as far as the section table goes. */
  function SectionsOfText(t: TextSections): seq<u32> {
    var n := |t.offsets|;
    if t.first >= n then [] else if t.first + t.count <= n then t.offsets[t.first..t.first + t.count] else t.offsets[t.first..]
  }

  /** Section k is the first that has file data. */
  predicate FirstNonzero(w: seq<u32>, k: nat) {
    k < |w| && w[k] != 0 && forall j :: 0 <= j < k ==> w[j] == 0
  }

  predicate AllZero(w: seq<u32>) { forall k :: 0 <= k < |w| ==> w[k] == 0 }

  lemma {:induction false} FirstWithDataFrom(t: TextSections, i: nat)
    requires i <= t.count && i <= |SectionsOfText(t)| && AllZero(SectionsOfText(t)[..i])
    ensures var w := SectionsOfText(t);
            match FirstWithData(t, i)
            case None => |w| < t.count && AllZero(w)
            case Some(None) => |w| == t.count && AllZero(w)
            case Some(Some(off)) => exists k: nat :: FirstNonzero(w, k) && w[k] == off
    decreases t.count - i
  {
    var w := SectionsOfText(t);
    if i < t.count && t.first + i < |t.offsets| {
      assert w[i] == t.offsets[t.first + i];
      if w[i] == 0 {
        assert w[..i + 1] == w[..i] + [w[i]];
        FirstWithDataFrom(t, i + 1);
      } else {
        forall j | 0 <= j < i ensures w[j] == 0 {
          assert w[..i][j] == 0;
        }
        assert FirstNonzero(w, i);
      }
    } else {
      assert w[..i] == w;
    }
  }

  /** The data of __TEXT starts where its first section with file data does, relative to the
      segment, or at zero where none has any; anything else is an error: sections the table does
      not have, and one in front of the segment. */
  lemma FirstSectionExactly(segs: seq<Segment>, t: TextSections, i: nat, r: nat)
    requires i < |segs| && segs[i].name == "__TEXT" && forall j :: 0 <= j < i ==> segs[j].name != "__TEXT"
    ensures var w := SectionsOfText(t);
            FirstSectionRelOff(segs, t) == Some(r) <==>
              (|w| == t.count && AllZero(w) && r == 0) || (exists k: nat :: FirstNonzero(w, k) && w[k] == segs[i].offset + r)
  {
    hide AllZero, FirstNonzero, FirstWithData;
    TextSegmentIs(segs, i);
    assert AllZero(SectionsOfText(t)[..0]) by { NothingNonzero(); }
    FirstWithDataFrom(t, 0);
    OnlyOneIsFirst(SectionsOfText(t));
  }

  lemma NothingNonzero()
    ensures AllZero([])
  {
  }

  lemma OnlyOneIsFirst(w: seq<u32>)
    ensures forall j: nat, k: nat :: FirstNonzero(w, j) && FirstNonzero(w, k) ==> j == k
    ensures forall k: nat :: FirstNonzero(w, k) ==> !AllZero(w) && k < |w|
  {
  }

  lemma {:induction false} TextSegmentIs(segs: seq<Segment>, i: nat)
    requires i < |segs| && segs[i].name == "__TEXT" && forall j :: 0 <= j < i ==> segs[j].name != "__TEXT"
    ensures TextSegment(segs) == Some(segs[i])
  {
    if i > 0 {
      assert segs[0].name != "__TEXT";
      TextSegmentIs(segs[1..], i - 1);
    }
  }

  /** An image without a __TEXT segment has its data at zero. */
  lemma {:induction false} NoTextNoSections(segs: seq<Segment>, t: TextSections)
    requires forall i :: 0 <= i < |segs| ==> segs[i].name != "__TEXT"
    ensures FirstSectionRelOff(segs, t) == Some(0) && TextSegment(segs) == None
  {
    if segs != [] {
      NoTextNoSections(segs[1..], t);
    }
  }

  // ---- Writing ----

  /** readOriginalSegment. */
  function ReadOriginal(file: Bytes, info: Info): Option<Bytes> {
    if info.oldStart > MAX_INT64 || info.oldStart + info.origFilesz > |file| then None
    else Some(file[info.oldStart..info.oldStart + info.origFilesz])
  }

  /** textSegmentWriteStart. */
  function TextDataStart(firstSection: nat, endOfLoads: nat, dataLen: nat): Option<nat> {
    if Max(firstSection, endOfLoads) > dataLen then None else Some(Max(firstSection, endOfLoads))
  }

  /** The data of __TEXT is written from its first section on, or from the end of the load
      commands where those reach further. */
  lemma TextDataStartExactly(firstSection: nat, endOfLoads: nat, dataLen: nat, start: nat)
    ensures TextDataStart(firstSection, endOfLoads, dataLen) == Some(start) <==>
              && firstSection <= start && endOfLoads <= start <= dataLen
              && (start == firstSection || start == endOfLoads)
  {
  }

  const NOWHERE: Info := Info("", 0, 0, 0, 0, 0, 0)

  /** One turn of the write loop; s already has its new file size. */
  function WriteSegment(buf: Bytes, file: Bytes, m: seq<Info>, s: Segment, firstSection: nat, endOfLoads: nat): Option<Bytes> {
    var info := if Lookup(m, s.name).Some? then Lookup(m, s.name).value else NOWHERE;
    if s.filesz == 0 then Some(PadTo(buf, info.newEnd))
    else
      match ReadOriginal(file, info)
      case None => None
      case Some(dat) =>
        var start := PadTo(buf, info.newStart);
        if s.name == TEXT then
          match TextDataStart(firstSection, endOfLoads, |dat|)
          case None => None
          case Some(dataStart) => Some(PadTo(start + Zeros(dataStart - endOfLoads) + dat[dataStart..], info.newEnd))
        else Some(PadTo(start + dat, info.newEnd))
  }

  function WriteAll(head: Bytes, file: Bytes, m: seq<Info>, segs: seq<Segment>, firstSection: nat): Option<Bytes> {
    if segs == [] then Some(head)
    else
      match WriteAll(head, file, m, segs[..|segs| - 1], firstSection)
      case None => None
      case Some(buf) => WriteSegment(buf, file, m, segs[|segs| - 1], firstSection, |head|)
  }

  /** The segments as optimizeLoadCommands leaves them. */
  function Relaid(m: seq<Info>, s: Segment): Option<Segment> {
    match RemapSeg(m, s.name, s.offset)
    case None => None
    case Some((off, size)) =>
      var info := Lookup(m, s.name).value;
      Some(Segment(s.name, off, size, ExportedMemsz(size, info.origFilesz, info.origMemsz)))
  }

  function RelaidAll(m: seq<Info>, segs: seq<Segment>): Option<seq<Segment>> {
    if segs == [] then Some([])
    else
      match RelaidAll(m, segs[..|segs| - 1])
      case None => None
      case Some(init) =>
        match Relaid(m, segs[|segs| - 1]) case None => None case Some(s) => Some(init + [s])
  }

  /** A file offset in one of the other load commands. Some commands leave a zero offset alone,
      and all but one keep offsets in 32 bits. */
  datatype Link = Link(offset: u64, skipsZero: bool, wide: bool)

  /** The same link after the segments moved; None when no old range holds it. */
  function Relinked(m: seq<Info>, l: Link): Option<Link> {
    if l.skipsZero && l.offset == 0 then Some(l)
    else
      match Remap(m, l.offset)
      case None => None
      case Some(off) => Some(l.(offset := if l.wide then off else off % U32))
  }

  function RelinkedAll(m: seq<Info>, links: seq<Link>): Option<seq<Link>> {
    if links == [] then Some([])
    else
      match RelinkedAll(m, links[..|links| - 1])
      case None => None
      case Some(init) =>
        match Relinked(m, links[|links| - 1]) case None => None case Some(l) => Some(init + [l])
  }

  /** The whole export: sorted is what sort.Sort made of the map, head the new header and load
      commands. */
  function Exported(head: Bytes, file: Bytes, sorted: seq<Info>, segs: seq<Segment>, links: seq<Link>, t: TextSections): Option<Bytes> {
    match FirstSectionRelOff(segs, t)
    case None => None
    case Some(first) =>
      match RelaidAll(sorted, segs)
      case None => None
      case Some(relaid) =>
        if RelinkedAll(sorted, links).None? then None else WriteAll(head, file, sorted, relaid, first)
  }

  // ---- The program ----

  class Image {
    const file: Bytes
    var segments: seq<Segment>
    var links: seq<Link>

    constructor (file: Bytes, segments: seq<Segment>, links: seq<Link>)
      ensures this.file == file && this.segments == segments && this.links == links
    {
      this.file, this.segments, this.links := file, segments, links;
    }

    /** The segment part of optimizeLoadCommands: offsets and sizes are replaced in place. */
    method OptimizeSegments(m: seq<Info>) returns (ok: bool)
      modifies this`segments
      ensures ok <==> RelaidAll(m, old(segments)).Some?
      ensures ok ==> segments == RelaidAll(m, old(segments)).value
    {
      hide Relaid;
      var n := |segments|;
      ghost var was := segments;
      for i := 0 to n
        invariant RelaidAll(m, was[..i]).Some? && |segments| == n && segments[i..] == was[i..]
        invariant segments[..i] == RelaidAll(m, was[..i]).value
      {
        assert was[..i + 1][..i] == was[..i];
        assert segments[i] == segments[i..][0] && was[i] == was[i..][0];
        var s := Relaid(m, segments[i]);
        if s == None {
          RelaidPrefix(m, was, i + 1);
          return false;
        }
        ghost var before := segments;
        segments := segments[i := s.value];
        assert segments[..i + 1] == before[..i] + [s.value];
        assert segments[i + 1..] == before[i..][1..];
      }
      assert was[..n] == was && segments[..n] == segments;
      ok := true;
    }

    /** The rest of optimizeLoadCommands. */
    method OptimizeLinks(m: seq<Info>) returns (ok: bool)
      modifies this`links
      ensures ok <==> RelinkedAll(m, old(links)).Some?
      ensures ok ==> links == RelinkedAll(m, old(links)).value
    {
      hide Relinked;
      var n := |links|;
      ghost var was := links;
      for i := 0 to n
        invariant RelinkedAll(m, was[..i]).Some? && |links| == n && links[i..] == was[i..]
        invariant links[..i] == RelinkedAll(m, was[..i]).value
      {
        assert was[..i + 1][..i] == was[..i];
        assert links[i] == links[i..][0] && was[i] == was[i..][0];
        var l := Relinked(m, links[i]);
        if l == None {
          RelinkedPrefix(m, was, i + 1);
          return false;
        }
        ghost var before := links;
        links := links[i := l.value];
        assert links[..i + 1] == before[..i] + [l.value];
        assert links[i + 1..] == before[i..][1..];
      }
      assert was[..n] == was && links[..n] == links;
      ok := true;
    }

    /** Export, without the file it writes to. */
    method Export(page: u64, head: Bytes, t: TextSections) returns (out: Option<Bytes>)
      requires page > 0
      modifies this
      ensures exists sorted :: SortedFrom(sorted, Entries(old(segments), page))
                               && out == Exported(head, file, sorted, old(segments), old(links), t)
    {
      hide SortedFrom;
      var entries := BuildEntries(segments, page);
      var sorted := Sort(entries);
      var first := TextSegmentFirstSectionRelOff(segments, t);
      if first == None {
        return None;
      }
      var ok := OptimizeSegments(sorted);
      if !ok {
        return None;
      }
      ok := OptimizeLinks(sorted);
      if !ok {
        return None;
      }
      out := WriteOut(head, sorted, first.value);
    }

    /** The write loop. */
    method WriteOut(head: Bytes, m: seq<Info>, firstSection: nat) returns (out: Option<Bytes>)
      ensures out == WriteAll(head, file, m, segments, firstSection)
    {
      hide WriteSegment;
      var buf := head;
      assert segments[..0] == [];
      for i := 0 to |segments|
        invariant WriteAll(head, file, m, segments[..i], firstSection) == Some(buf)
      {
        assert segments[..i + 1][..i] == segments[..i];
        var next := WriteOne(buf, m, segments[i], firstSection, |head|);
        if next == None {
          WritePrefix(head, file, m, segments, firstSection, i + 1);
          return None;
        }
        buf := next.value;
      }
      assert segments[..|segments|] == segments;
      out := Some(buf);
    }

    method WriteOne(buf: Bytes, m: seq<Info>, seg: Segment, firstSection: nat, endOfLoads: nat) returns (out: Option<Bytes>)
      ensures out == WriteSegment(buf, file, m, seg, firstSection, endOfLoads)
    {
      hide ReadOriginal, Lookup;
      var found := Lookup(m, seg.name);
      var info := if found.Some? then found.value else NOWHERE;
      var b := buf;
      if seg.filesz > 0 {
        b := PadTo(b, info.newStart);
        var dat := ReadOriginal(file, info);
        if dat == None {
          return None;
        }
        if seg.name == TEXT {
          var dataStart := TextDataStart(firstSection, endOfLoads, |dat.value|);
          if dataStart == None {
            return None;
          }
          if dataStart.value > endOfLoads {
            b := b + Zeros(dataStart.value - endOfLoads);
          } else {
            assert b + Zeros(0) == b;
          }
          b := b + dat.value[dataStart.value..];
        } else {
          b := b + dat.value;
        }
      }
      out := Some(PadTo(b, info.newEnd));
    }
  }

  /** sort.Sort by old start. */
  method Sort(entries: seq<Info>) returns (m: seq<Info>)
    ensures SortedFrom(m, entries)
  {
    m := [];
    for i := 0 to |entries|
      invariant SortedFrom(m, entries[..i])
    {
      m := Insert(m, entries[i]);
      assert entries[..i + 1] == entries[..i] + [entries[i]];
    }
    assert entries[..|entries|] == entries;
  }

  method Insert(m: seq<Info>, x: Info) returns (r: seq<Info>)
    requires SortedFrom(m, m)
    ensures SortedFrom(r, m + [x])
  {
    var k := |m|;
    while k > 0 && x.oldStart < m[k - 1].oldStart
      invariant 0 <= k <= |m| && (k < |m| ==> x.oldStart < m[k].oldStart)
    {
      k := k - 1;
    }
    r := m[..k] + [x] + m[k..];
    InsertedIsSorted(m, k, x);
    InsertedIsPermutation(m, k, x);
  }

  lemma InsertedIsSorted(m: seq<Info>, k: nat, x: Info)
    requires k <= |m| && forall i, j :: 0 <= i < j < |m| ==> m[i].oldStart <= m[j].oldStart
    requires (k > 0 ==> m[k - 1].oldStart <= x.oldStart) && (k < |m| ==> x.oldStart <= m[k].oldStart)
    ensures var r := m[..k] + [x] + m[k..]; forall i, j :: 0 <= i < j < |r| ==> r[i].oldStart <= r[j].oldStart
  {
    var r := m[..k] + [x] + m[k..];
    forall i, j | 0 <= i < j < |r| ensures r[i].oldStart <= r[j].oldStart {
      assert r[i] == (if i < k then m[i] else if i == k then x else m[i - 1]);
      assert r[j] == (if j < k then m[j] else if j == k then x else m[j - 1]);
    }
  }

  lemma InsertedIsPermutation(m: seq<Info>, k: nat, x: Info)
    requires k <= |m|
    ensures multiset(m[..k] + [x] + m[k..]) == multiset(m + [x])
  {
    assert m == m[..k] + m[k..];
  }

  lemma {:induction false} RelaidPrefix(m: seq<Info>, segs: seq<Segment>, k: nat)
    requires k <= |segs| && RelaidAll(m, segs[..k]).None?
    ensures RelaidAll(m, segs).None?
    decreases |segs|
  {
    hide Relaid;
    if k == |segs| {
      assert segs[..k] == segs;
    } else {
      assert segs[..|segs| - 1][..k] == segs[..k];
      RelaidPrefix(m, segs[..|segs| - 1], k);
    }
  }

  lemma {:induction false} RelinkedPrefix(m: seq<Info>, links: seq<Link>, k: nat)
    requires k <= |links| && RelinkedAll(m, links[..k]).None?
    ensures RelinkedAll(m, links).None?
    decreases |links|
  {
    hide Relinked;
    if k == |links| {
      assert links[..k] == links;
    } else {
      assert links[..|links| - 1][..k] == links[..k];
      RelinkedPrefix(m, links[..|links| - 1], k);
    }
  }

  lemma {:induction false} WritePrefix(head: Bytes, file: Bytes, m: seq<Info>, segs: seq<Segment>, firstSection: nat, k: nat)
    requires k <= |segs| && WriteAll(head, file, m, segs[..k], firstSection).None?
    ensures WriteAll(head, file, m, segs, firstSection).None?
    decreases |segs|
  {
    hide WriteSegment;
    if k == |segs| {
      assert segs[..k] == segs;
    } else {
      assert segs[..|segs| - 1][..k] == segs[..k];
      WritePrefix(head, file, m, segs[..|segs| - 1], firstSection, k);
    }
  }
}
