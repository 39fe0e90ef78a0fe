/** The segment map of export.go: where each segment of a standalone file lies before and after
    an export, and the translation of file offsets by Remap and RemapSeg. */
module SegmentMap {
  import opened Basics

  datatype Segment = Segment(name: string, offset: u64, filesz: u64, memsz: u64)

  /** segMapInfo. */
  datatype Info = Info(name: string, oldStart: u64, oldEnd: u64, newStart: u64, newEnd: u64, origMemsz: u64, origFilesz: u64)

  const LINKEDIT := "__LINKEDIT"
  const TEXT := "__TEXT"

  /** The page sizes a file can have. */
  predicate IsPage(page: u64) { page == 0x1000 || page == 0x4000 }

  /** pageAlign, in uint64 arithmetic. */
  function PageAlign(off: u64, align: u64): u64
    requires align > 0
  {
    if off % align != 0 then (off + (align - off % align)) % U64 else off
  }

  lemma PageAlign4K(off: u64)
    requires off <= U64 - 0x1000
    ensures off <= PageAlign(off, 0x1000) < off + 0x1000 && PageAlign(off, 0x1000) % 0x1000 == 0
    ensures PageAlign(off, 0x1000) == off <==> off % 0x1000 == 0
  {
  }

  lemma PageAlign16K(off: u64)
    requires off <= U64 - 0x4000
    ensures off <= PageAlign(off, 0x4000) < off + 0x4000 && PageAlign(off, 0x4000) % 0x4000 == 0
    ensures PageAlign(off, 0x4000) == off <==> off % 0x4000 == 0
  {
  }

  /** Away from the top of the range it is the least multiple of the page size from off on. */
  lemma PageAlignIsLeast(off: u64, page: u64)
    requires IsPage(page) && off <= U64 - page
    ensures off <= PageAlign(off, page) < off + page && (PageAlign(off, page) == off <==> off % page == 0)
    ensures PageAlign(off, page) % page == 0
  {
    hide PageAlign;
    if page == 0x1000 {
      PageAlign4K(off);
    } else {
      PageAlign16K(off);
    }
  }

  // ---- Building the map ----

  function NewSize(segs: seq<Segment>, i: nat, page: u64): u64
    requires i < |segs| && page > 0
  {
    if i == |segs| - 1 && segs[i].name == LINKEDIT then segs[i].filesz else PageAlign(segs[i].filesz, page)
  }

  function NewStart(segs: seq<Segment>, i: nat, page: u64): u64
    requires i <= |segs| && page > 0
  {
    if i == 0 then 0 else (NewStart(segs, i - 1, page) + NewSize(segs, i - 1, page)) % U64
  }

  function Entry(segs: seq<Segment>, i: nat, page: u64): Info
    requires i < |segs| && page > 0
  {
    var s := segs[i];
    var start := NewStart(segs, i, page);
    Info(s.name, s.offset, (s.offset + s.filesz) % U64, start, (start + NewSize(segs, i, page)) % U64, s.memsz, s.filesz)
  }

  /** The map before it is sorted: in load-command order. */
  function Entries(segs: seq<Segment>, page: u64): (m: seq<Info>)
    requires page > 0
    ensures |m| == |segs| && forall i :: 0 <= i < |segs| ==> m[i] == Entry(segs, i, page)
  {
    seq(|segs|, i requires 0 <= i < |segs| => Entry(segs, i, page))
  }

  /** What sort.Sort may leave: any permutation sorted by old start. */
  ghost predicate SortedFrom(m: seq<Info>, entries: seq<Info>) {
    && multiset(m) == multiset(entries)
    && forall i, j :: 0 <= i < j < |m| ==> m[i].oldStart <= m[j].oldStart
  }

  lemma StartStep(segs: seq<Segment>, page: u64)
    requires page > 0
    ensures NewStart(segs, 0, page) == 0
    ensures forall i :: 0 <= i < |segs| ==>
              NewStart(segs, i + 1, page) == (NewStart(segs, i, page) + NewSize(segs, i, page)) % U64
  {
    hide NewSize;
  }

  method BuildEntries(segs: seq<Segment>, page: u64) returns (m: seq<Info>)
    requires page > 0
    ensures m == Entries(segs, page)
  {
    hide PageAlign, NewStart;
    StartStep(segs, page);
    var newSegOffset: u64 := 0;
    m := [];
    for i := 0 to |segs|
      invariant newSegOffset == NewStart(segs, i, page)
      invariant |m| == i && forall j :: 0 <= j < i ==> m[j] == Entry(segs, j, page)
    {
      var seg := segs[i];
      var newFilesz := PageAlign(seg.filesz, page);
      if i == |segs| - 1 && seg.name == LINKEDIT {
        newFilesz := seg.filesz;
      }
      m := m + [Info(seg.name, seg.offset, (seg.offset + seg.filesz) % U64,
                     newSegOffset, (newSegOffset + newFilesz) % U64, seg.memsz, seg.filesz)];
      newSegOffset := (newSegOffset + newFilesz) % U64;
    }
  }

  // ---- Looking up ----

  function Lookup(m: seq<Info>, name: string): Option<Info> {
    if m == [] then None else if m[0].name == name then Some(m[0]) else Lookup(m[1..], name)
  }

  /** The first entry whose old range, its end included, holds the offset. */
  function Remap(m: seq<Info>, offset: u64): Option<u64> {
    if m == [] then None
    else if m[0].oldStart <= offset <= m[0].oldEnd then Some((m[0].newStart + (offset - m[0].oldStart)) % U64)
    else Remap(m[1..], offset)
  }

  /** A segment's new offset and size. */
  function RemapSeg(m: seq<Info>, name: string, offset: u64): Option<(u64, u64)> {
    match Lookup(m, name)
    case None => None
    case Some(info) => Some(((info.newStart + (offset - info.oldStart)) % U64, (info.newEnd - info.newStart) % U64))
  }

  // ---- Layouts ----

  /** Nothing wraps: segment ends and the new layout stay below 2^64. */
  ghost predicate Fits(segs: seq<Segment>, page: u64) {
    && IsPage(page)
    && (forall i :: 0 <= i < |segs| ==> segs[i].filesz <= U64 - page && segs[i].offset + segs[i].filesz < U64)
    && (forall i :: 0 <= i < |segs| ==> NewStart(segs, i, page) + NewSize(segs, i, page) < U64)
  }

  ghost predicate DistinctNames(segs: seq<Segment>) {
    forall i, j :: 0 <= i < j < |segs| ==> segs[i].name != segs[j].name
  }

  /** Old ranges of file-backed segments do not overlap, and no empty one lies inside another. */
  ghost predicate DisjointOld(m: seq<Info>) {
    && (forall i :: 0 <= i < |m| ==> m[i].oldStart <= m[i].oldEnd)
    && (forall i, j :: 0 <= i < |m| && 0 <= j < |m| && i != j && m[i].oldStart < m[i].oldEnd ==>
          m[j].oldEnd <= m[i].oldStart || m[i].oldEnd <= m[j].oldStart)
  }

  lemma SizeIs(segs: seq<Segment>, i: nat, page: u64)
    requires Fits(segs, page) && i < |segs|
    ensures NewSize(segs, i, page) >= segs[i].filesz && (NewSize(segs, i, page) == 0 <==> segs[i].filesz == 0)
    ensures i < |segs| - 1 ==> (NewSize(segs, i, page) == segs[i].filesz <==> segs[i].filesz % page == 0)
  {
    hide PageAlign;
    PageAlignIsLeast(segs[i].filesz, page);
    assert segs[i].filesz == 0 ==> PageAlign(segs[i].filesz, page) == 0 by { PageAlignOfZero(page); }
  }

  lemma PageAlignOfZero(page: u64)
    requires page > 0
    ensures PageAlign(0, page) == 0
  {
  }

  lemma NextStart(segs: seq<Segment>, i: nat, page: u64)
    requires Fits(segs, page) && i < |segs|
    ensures NewStart(segs, i + 1, page) == NewStart(segs, i, page) + NewSize(segs, i, page)
  {
    hide NewSize;
  }

  /** A segment's new size is its file size padded to the page grid, unless it is __LINKEDIT at the
      end of the file, which stays as it is. */
  lemma SizeIsPadded(segs: seq<Segment>, i: nat, page: u64)
    requires Fits(segs, page) && i < |segs|
    ensures i == |segs| - 1 && segs[i].name == "__LINKEDIT" ==> NewSize(segs, i, page) == segs[i].filesz
    ensures i < |segs| - 1 || segs[i].name != "__LINKEDIT" ==>
              NewSize(segs, i, page) % page == 0 && segs[i].filesz <= NewSize(segs, i, page) < segs[i].filesz + page
  {
    hide PageAlign;
    PageAlignIsLeast(segs[i].filesz, page);
  }

  /** New ranges follow one another without gap or overlap. */
  lemma {:induction false} StartsAscend(segs: seq<Segment>, i: nat, j: nat, page: u64)
    requires Fits(segs, page) && i < j <= |segs|
    ensures NewStart(segs, i, page) + NewSize(segs, i, page) <= NewStart(segs, j, page)
    ensures (forall k :: i < k < j ==> NewSize(segs, k, page) == 0) ==>
              NewStart(segs, i, page) + NewSize(segs, i, page) == NewStart(segs, j, page)
    decreases j
  {
    hide NewSize, NewStart;
    NextStart(segs, j - 1, page);
    if i < j - 1 {
      StartsAscend(segs, i, j - 1, page);
    }
  }

  lemma {:induction false} LookupIs(m: seq<Info>, info: Info)
    requires info in m && forall i, j :: 0 <= i < j < |m| ==> m[i].name != m[j].name
    ensures Lookup(m, info.name) == Some(info)
  {
    if m[0] != info {
      assert m == [m[0]] + m[1..];
      var i :| 0 <= i < |m| && m[i] == info;
      assert m[0].name != m[i].name;
      LookupIs(m[1..], info);
    }
  }

  lemma {:induction false} LookupFound(m: seq<Info>, name: string)
    ensures Lookup(m, name).Some? ==> Lookup(m, name).value in m && Lookup(m, name).value.name == name
    ensures Lookup(m, name).None? ==> forall i :: 0 <= i < |m| ==> m[i].name != name
  {
    if m != [] {
      LookupFound(m[1..], name);
      assert m == [m[0]] + m[1..];
    }
  }

  lemma {:induction false} CountAtMostOne(m: seq<Info>, x: Info)
    requires forall i, j :: 0 <= i < j < |m| ==> m[i].name != m[j].name
    ensures multiset(m)[x] <= 1
  {
    if m != [] {
      var n := |m| - 1;
      CountAtMostOne(m[..n], x);
      assert m == m[..n] + [m[n]];
      assert forall i :: 0 <= i < n ==> m[..n][i].name != m[n].name;
    }
  }

  /** Sorting keeps names distinct. */
  lemma NamesStayDistinct(m: seq<Info>, entries: seq<Info>)
    requires SortedFrom(m, entries) && forall i, j :: 0 <= i < j < |entries| ==> entries[i].name != entries[j].name
    ensures forall i, j :: 0 <= i < j < |m| ==> m[i].name != m[j].name
  {
    forall i, j | 0 <= i < j < |m| ensures m[i].name != m[j].name {
      assert m[i] in multiset(entries) && m[j] in multiset(entries);
      var a :| 0 <= a < |entries| && entries[a] == m[i];
      var b :| 0 <= b < |entries| && entries[b] == m[j];
      if a == b {
        TwiceCountsTwo(m, i, j);
        CountAtMostOne(entries, m[i]);
      }
    }
  }

  /** By name, every segment finds its own entry however the map was sorted. */
  lemma LookupFindsOwnEntry(segs: seq<Segment>, page: u64, m: seq<Info>, i: nat)
    requires page > 0 && DistinctNames(segs) && SortedFrom(m, Entries(segs, page)) && i < |segs|
    ensures Lookup(m, segs[i].name) == Some(Entry(segs, i, page))
  {
    hide Lookup, Entry;
    var entries := Entries(segs, page);
    assert forall k :: 0 <= k < |segs| ==> entries[k].name == segs[k].name by { EntryNames(segs, page); }
    NamesStayDistinct(m, entries);
    assert entries[i] in multiset(m);
    LookupIs(m, entries[i]);
  }

  lemma EntryNames(segs: seq<Segment>, page: u64)
    requires page > 0
    ensures forall k :: 0 <= k < |segs| ==> Entries(segs, page)[k].name == segs[k].name
  {
  }

  // ---- Remap ----

  predicate Touches(info: Info, offset: u64) { info.oldStart <= offset <= info.oldEnd }

  lemma {:induction false} RemapIs(m: seq<Info>, offset: u64, i: nat)
    requires i < |m| && Touches(m[i], offset) && forall j :: 0 <= j < i ==> !Touches(m[j], offset)
    ensures Remap(m, offset) == Some((m[i].newStart + (offset - m[i].oldStart)) % U64)
  {
    if i > 0 {
      assert !Touches(m[0], offset);
      forall j | 0 <= j < i - 1 ensures !Touches(m[1..][j], offset) {
        assert m[1..][j] == m[j + 1];
      }
      RemapIs(m[1..], offset, i - 1);
    }
  }

  /** Strictly inside an old range, Remap translates by that range's own displacement. */
  lemma RemapInside(m: seq<Info>, i: nat, offset: u64)
    requires DisjointOld(m) && i < |m| && m[i].oldStart < offset < m[i].oldEnd
    ensures Remap(m, offset) == Some((m[i].newStart + (offset - m[i].oldStart)) % U64)
  {
    RemapIs(m, offset, i);
  }

  /** In a file whose segments lie in load-command order, the first byte of a file-backed segment
      is translated to its new place exactly if no segment ending there has a size off the page
      grid. */
  lemma RemapInOrderExactly(segs: seq<Segment>, page: u64, i: nat)
    requires Fits(segs, page) && i < |segs| && segs[i].filesz > 0
    requires var m := Entries(segs, page); SortedFrom(m, m) && DisjointOld(m)
    ensures Remap(Entries(segs, page), segs[i].offset) == Some(NewStart(segs, i, page)) <==>
            forall j :: 0 <= j < |segs| && segs[j].filesz > 0 && segs[j].offset + segs[j].filesz == segs[i].offset ==>
              segs[j].filesz % page == 0
  {
    hide Remap, NewStart, NewSize, DisjointOld, SortedFrom;
    var m := Entries(segs, page);
    EntriesAre(segs, page);
    var first := FirstTouching(m, segs[i].offset, 0, i);
    OneEndsThere(m, first, i);
    RemapToFirst(segs, page, first, i);
    if first < i {
      ZeroIsOnPage(page);
      assert segs[first].filesz % page == 0 <==>
             forall j :: 0 <= j < |segs| && segs[j].filesz > 0 && segs[j].offset + segs[j].filesz == segs[i].offset ==>
               segs[j].filesz % page == 0;
    }
  }

  lemma RemapToFirst(segs: seq<Segment>, page: u64, first: nat, i: nat)
    requires Fits(segs, page) && first <= i < |segs| && segs[i].filesz > 0
    requires var m := Entries(segs, page); SortedFrom(m, m) && DisjointOld(m) && Touches(m[first], segs[i].offset)
    requires forall j :: 0 <= j < first ==> !Touches(Entries(segs, page)[j], segs[i].offset)
    ensures Remap(Entries(segs, page), segs[i].offset) == Some(NewStart(segs, i, page)) <==>
            first == i || segs[first].filesz % page == 0
  {
    hide Remap, NewStart, NewSize, DisjointOld;
    var m := Entries(segs, page);
    EntriesAre(segs, page);
    RemapIs(m, segs[i].offset, first);
    if first < i {
      OneEndsThere(m, first, i);
      forall k | first < k < i ensures segs[k].filesz == 0 {
        BetweenIsEmpty(m, first, k, i);
      }
      DisplacementAgreesExactly(segs, page, first, i);
    }
  }

  /** With only empty segments between them, the end of one segment's data is the start of the
      next exactly if its size is on the page grid. */
  lemma DisplacementAgreesExactly(segs: seq<Segment>, page: u64, i: nat, j: nat)
    requires Fits(segs, page) && i < j < |segs| && forall k :: i < k < j ==> segs[k].filesz == 0
    ensures NewStart(segs, i, page) + segs[i].filesz < U64
    ensures NewStart(segs, i, page) + segs[i].filesz == NewStart(segs, j, page) <==> segs[i].filesz % page == 0
  {
    hide NewStart, NewSize;
    forall k | i < k < j ensures NewSize(segs, k, page) == 0 {
      SizeIs(segs, k, page);
    }
    StartsAscend(segs, i, j, page);
    SizeIs(segs, i, page);
  }

  lemma ZeroIsOnPage(page: u64)
    requires IsPage(page)
    ensures 0 % page == 0
  {
  }

  lemma EntriesAre(segs: seq<Segment>, page: u64)
    requires Fits(segs, page)
    ensures forall k :: 0 <= k < |segs| ==>
              && Entries(segs, page)[k].oldStart == segs[k].offset
              && Entries(segs, page)[k].oldEnd == segs[k].offset + segs[k].filesz
              && Entries(segs, page)[k].newStart == NewStart(segs, k, page)
  {
    hide NewStart, NewSize;
  }

  /** The first entry from k on that touches the offset; entry i does. */
  function FirstTouching(m: seq<Info>, offset: u64, k: nat, i: nat): (first: nat)
    requires k <= i < |m| && Touches(m[i], offset)
    ensures k <= first <= i && Touches(m[first], offset) && forall j :: k <= j < first ==> !Touches(m[j], offset)
    decreases i - k
  {
    if Touches(m[k], offset) then k else FirstTouching(m, offset, k + 1, i)
  }

  /** The first entry that touches the start of entry i is i itself or ends there; and no other
      file-backed entry ends there. */
  lemma OneEndsThere(m: seq<Info>, first: nat, i: nat)
    requires first <= i < |m| && DisjointOld(m) && m[i].oldStart < m[i].oldEnd && Touches(m[first], m[i].oldStart)
    requires SortedFrom(m, m)
    requires forall j :: 0 <= j < first ==> !Touches(m[j], m[i].oldStart)
    ensures first < i ==> m[first].oldEnd == m[i].oldStart
    ensures forall j :: 0 <= j < |m| && m[j].oldStart < m[j].oldEnd && m[j].oldEnd == m[i].oldStart ==> j == first && j < i
  {
    forall j | 0 <= j < |m| && m[j].oldStart < m[j].oldEnd && m[j].oldEnd == m[i].oldStart ensures j == first && j < i {
      assert Touches(m[j], m[i].oldStart);
    }
  }

  lemma BetweenIsEmpty(m: seq<Info>, first: nat, k: nat, i: nat)
    requires first < k < i < |m| && DisjointOld(m) && m[i].oldStart < m[i].oldEnd && Touches(m[first], m[i].oldStart)
    requires SortedFrom(m, m)
    ensures m[k].oldStart == m[k].oldEnd
  {
  }

  // ---- Remap at the start of a segment, in any layout ----

  predicate EndsAt(s: Segment, offset: u64) { s.filesz > 0 && s.offset + s.filesz == offset }

  /** In the new layout segment i starts where the data of segment j ends. */
  predicate Adjoins(segs: seq<Segment>, page: u64, j: nat, i: nat)
    requires j < |segs| && i < |segs| && page > 0
  {
    j < i && segs[j].filesz % page == 0 && forall k :: j < k < i ==> segs[k].filesz == 0
  }

  /** m lists no entry that starts at offset before entry k, which does. */
  predicate FirstAt(m: seq<Info>, k: nat, offset: u64)
    requires k < |m|
  {
    m[k].oldStart == offset && forall l :: 0 <= l < k ==> m[l].oldStart != offset
  }

  lemma AdjoinsExactly(segs: seq<Segment>, page: u64, j: nat, i: nat)
    requires Fits(segs, page) && j < |segs| && i < |segs| && segs[j].filesz > 0 && segs[i].filesz > 0
    ensures NewStart(segs, j, page) + segs[j].filesz < U64
    ensures NewStart(segs, j, page) + segs[j].filesz == NewStart(segs, i, page) <==> Adjoins(segs, page, j, i)
  {
    hide NewStart, NewSize;
    SizeIs(segs, j, page);
    SizeIs(segs, i, page);
    if j < i {
      StartsAscend(segs, j, i, page);
      if k :| j < k < i && segs[k].filesz > 0 {
        SizeIs(segs, k, page);
        StartsAscend(segs, j, k, page);
        StartsAscend(segs, k, i, page);
      } else {
        DisplacementAgreesExactly(segs, page, j, i);
      }
    } else if i < j {
      StartsAscend(segs, i, j, page);
    }
  }

  lemma EntryListed(segs: seq<Segment>, page: u64, m: seq<Info>, i: nat) returns (p: nat)
    requires page > 0 && SortedFrom(m, Entries(segs, page)) && i < |segs|
    ensures p < |m| && m[p] == Entry(segs, i, page)
  {
    hide Entry;
    assert Entries(segs, page)[i] in multiset(m);
    p :| p < |m| && m[p] == Entry(segs, i, page);
  }

  lemma ListedEntry(segs: seq<Segment>, page: u64, m: seq<Info>, p: nat) returns (i: nat)
    requires page > 0 && SortedFrom(m, Entries(segs, page)) && p < |m|
    ensures i < |segs| && m[p] == Entry(segs, i, page)
  {
    hide Entry;
    assert m[p] in multiset(Entries(segs, page));
    i :| i < |segs| && Entries(segs, page)[i] == m[p];
  }

  /** Where a segment ends at the start of segment i, the start is translated as that end. */
  lemma RemapAtSharedStart(segs: seq<Segment>, page: u64, m: seq<Info>, i: nat, j: nat)
    requires Fits(segs, page) && SortedFrom(m, Entries(segs, page)) && DisjointOld(m)
    requires i < |segs| && segs[i].filesz > 0 && j < |segs| && EndsAt(segs[j], segs[i].offset)
    ensures Remap(m, segs[i].offset) == Some(NewStart(segs, i, page)) <==> Adjoins(segs, page, j, i)
  {
    hide Remap, NewStart, NewSize, DisjointOld, Adjoins;
    var offset := segs[i].offset;
    var p := EntryListed(segs, page, m, i);
    var q := EntryListed(segs, page, m, j);
    EntryIs(segs, page, i);
    EntryIs(segs, page, j);
    var first := FirstTouching(m, offset, 0, p);
    OneEndsThere(m, first, p);
    RemapIs(m, offset, first);
    AdjoinsExactly(segs, page, j, i);
  }

  /** Where none does, it is translated to the new start of the entry listed first there. */
  lemma RemapAtFreeStart(segs: seq<Segment>, page: u64, m: seq<Info>, i: nat) returns (first: nat)
    requires Fits(segs, page) && SortedFrom(m, Entries(segs, page)) && DisjointOld(m)
    requires i < |segs| && segs[i].filesz > 0 && forall j :: 0 <= j < |segs| ==> !EndsAt(segs[j], segs[i].offset)
    ensures first < |m| && FirstAt(m, first, segs[i].offset) && Remap(m, segs[i].offset) == Some(m[first].newStart)
  {
    hide Remap, NewStart, NewSize;
    var offset := segs[i].offset;
    var p := EntryListed(segs, page, m, i);
    EntryIs(segs, page, i);
    first := FirstTouching(m, offset, 0, p);
    OneEndsThere(m, first, p);
    RemapIs(m, offset, first);
    var f := ListedEntry(segs, page, m, first);
    EntryIs(segs, page, f);
    assert !EndsAt(segs[f], offset);
    forall l | 0 <= l < first ensures m[l].oldStart != offset {
      assert !Touches(m[l], offset);
    }
  }

  /** Segment e comes before segment i with no file data from it on, so both start at the same
      place in the new layout. */
  predicate StartsWith(segs: seq<Segment>, e: nat, i: nat)
    requires e < |segs| && i < |segs|
  {
    e <= i && forall j :: e <= j < i ==> segs[j].filesz == 0
  }

  lemma StartsWithExactly(segs: seq<Segment>, page: u64, e: nat, i: nat)
    requires Fits(segs, page) && e < |segs| && i < |segs| && segs[i].filesz > 0
    ensures NewStart(segs, e, page) == NewStart(segs, i, page) <==> StartsWith(segs, e, i)
  {
    hide NewStart, NewSize;
    SizeIs(segs, i, page);
    if e < i {
      SizeIs(segs, e, page);
      StartsAscend(segs, e, i, page);
      if k :| e < k < i && segs[k].filesz > 0 {
        SizeIs(segs, k, page);
        StartsAscend(segs, e, k, page);
        StartsAscend(segs, k, i, page);
      } else {
        forall k | e < k < i ensures NewSize(segs, k, page) == 0 {
          SizeIs(segs, k, page);
        }
      }
    } else if i < e {
      StartsAscend(segs, i, e, page);
    }
  }

  /** Segment e is the one whose entry m lists first of those that start at offset. */
  ghost predicate ListedFirst(segs: seq<Segment>, page: u64, m: seq<Info>, e: nat, offset: u64)
    requires page > 0 && e < |segs|
  {
    exists k :: 0 <= k < |m| && FirstAt(m, k, offset) && m[k] == Entry(segs, e, page)
  }

  /** The first byte of a file-backed segment is translated to its new place exactly if, where a
      segment ends there, that one has a size on the page grid and comes before it with nothing
      but empty segments between them; and where none does, the segment that the sorted map lists
      first there, if it is another one, comes before it with nothing but empty segments from it
      on. */
  lemma RemapAtStartExactly(segs: seq<Segment>, page: u64, m: seq<Info>, i: nat)
    requires Fits(segs, page) && SortedFrom(m, Entries(segs, page)) && DisjointOld(m) && i < |segs| && segs[i].filesz > 0
    ensures Remap(m, segs[i].offset) == Some(NewStart(segs, i, page)) <==>
            if exists j :: 0 <= j < |segs| && EndsAt(segs[j], segs[i].offset) then
              forall j :: 0 <= j < |segs| && EndsAt(segs[j], segs[i].offset) ==> Adjoins(segs, page, j, i)
            else forall e :: 0 <= e < |segs| && ListedFirst(segs, page, m, e, segs[i].offset) ==> StartsWith(segs, e, i)
  {
    hide Remap, NewStart, NewSize, DisjointOld, SortedFrom, Adjoins, EndsAt, StartsWith, ListedFirst;
    if exists j :: 0 <= j < |segs| && EndsAt(segs[j], segs[i].offset) {
      forall j | 0 <= j < |segs| && EndsAt(segs[j], segs[i].offset)
        ensures Remap(m, segs[i].offset) == Some(NewStart(segs, i, page)) <==> Adjoins(segs, page, j, i) {
        RemapAtSharedStart(segs, page, m, i, j);
      }
    } else {
      forall e | 0 <= e < |segs| && ListedFirst(segs, page, m, e, segs[i].offset)
        ensures Remap(m, segs[i].offset) == Some(NewStart(segs, i, page)) <==> StartsWith(segs, e, i) {
        RemapToListedFirst(segs, page, m, e, i);
      }
      var e := OneIsListedFirst(segs, page, m, i);
    }
  }

  lemma OneIsListedFirst(segs: seq<Segment>, page: u64, m: seq<Info>, i: nat) returns (e: nat)
    requires Fits(segs, page) && SortedFrom(m, Entries(segs, page)) && DisjointOld(m)
    requires i < |segs| && segs[i].filesz > 0 && forall j :: 0 <= j < |segs| ==> !EndsAt(segs[j], segs[i].offset)
    ensures e < |segs| && ListedFirst(segs, page, m, e, segs[i].offset)
  {
    hide Remap, Entry, SortedFrom, DisjointOld, EndsAt, FirstAt;
    var first := RemapAtFreeStart(segs, page, m, i);
    e := ListedEntry(segs, page, m, first);
  }

  lemma RemapToListedFirst(segs: seq<Segment>, page: u64, m: seq<Info>, e: nat, i: nat)
    requires Fits(segs, page) && SortedFrom(m, Entries(segs, page)) && DisjointOld(m)
    requires i < |segs| && segs[i].filesz > 0 && forall j :: 0 <= j < |segs| ==> !EndsAt(segs[j], segs[i].offset)
    requires e < |segs| && ListedFirst(segs, page, m, e, segs[i].offset)
    ensures Remap(m, segs[i].offset) == Some(NewStart(segs, i, page)) <==> StartsWith(segs, e, i)
  {
    hide Remap, NewStart, NewSize, SortedFrom, DisjointOld, EndsAt, StartsWith;
    var first := RemapAtFreeStart(segs, page, m, i);
    var k :| 0 <= k < |m| && FirstAt(m, k, segs[i].offset) && m[k] == Entry(segs, e, page);
    assert k == first;
    EntryIs(segs, page, e);
    StartsWithExactly(segs, page, e, i);
  }

  /** An empty segment that follows __TEXT but has file offset zero, listed first by the sort,
      takes the file's first byte to the end of __TEXT. */
  lemma EmptySegmentMovesStart()
    ensures var segs := [Segment(TEXT, 0, 0x1000, 0x1000), Segment("__EMPTY", 0, 0, 0x1000)];
            var m := [Entry(segs, 1, 0x1000), Entry(segs, 0, 0x1000)];
            && Fits(segs, 0x1000) && SortedFrom(m, Entries(segs, 0x1000)) && DisjointOld(m)
            && Remap(m, 0) == Some(0x1000) && NewStart(segs, 0, 0x1000) == 0
  {
    hide Remap, NewStart, NewSize, DisjointOld, SortedFrom;
    var segs := [Segment(TEXT, 0, 0x1000, 0x1000), Segment("__EMPTY", 0, 0, 0x1000)];
    var m := [Entry(segs, 1, 0x1000), Entry(segs, 0, 0x1000)];
    EmptyBehindText(segs);
    var text, empty := Info(TEXT, 0, 0x1000, 0, 0x1000, 0x1000, 0x1000), Info("__EMPTY", 0, 0, 0x1000, 0x1000, 0x1000, 0);
    assert Entry(segs, 0, 0x1000) == text && Entry(segs, 1, 0x1000) == empty;
    assert Entries(segs, 0x1000) == [text, empty];
    OverlapFree(text, empty);
    RemapIs(m, 0, 0);
  }

  lemma OverlapFree(text: Info, empty: Info)
    requires text.oldStart == 0 < text.oldEnd && empty.oldStart == empty.oldEnd == 0
    ensures DisjointOld([empty, text]) && SortedFrom([empty, text], [text, empty])
  {
  }

  lemma EmptyBehindText(segs: seq<Segment>)
    requires segs == [Segment(TEXT, 0, 0x1000, 0x1000), Segment("__EMPTY", 0, 0, 0x1000)]
    ensures NewSize(segs, 0, 0x1000) == 0x1000 && NewSize(segs, 1, 0x1000) == 0
    ensures NewStart(segs, 0, 0x1000) == 0 && NewStart(segs, 1, 0x1000) == 0x1000
  {
    assert NewSize(segs, 0, 0x1000) == 0x1000;
    assert NewStart(segs, 0, 0x1000) == 0;
  }

  /** Such a layout exists: __DATA of a file that packs it right behind __TEXT keeps the old end
      of __TEXT for its start. */
  lemma RemapMissesStart()
    ensures var segs := [Segment(TEXT, 0, 0x1800, 0x2000), Segment("__DATA", 0x1800, 0x1000, 0x1000)];
            && Fits(segs, 0x1000) && SortedFrom(Entries(segs, 0x1000), Entries(segs, 0x1000))
            && DisjointOld(Entries(segs, 0x1000))
            && Remap(Entries(segs, 0x1000), 0x1800) == Some(0x1800) && NewStart(segs, 1, 0x1000) == 0x2000
  {
    hide Remap;
    var segs := [Segment(TEXT, 0, 0x1800, 0x2000), Segment("__DATA", 0x1800, 0x1000, 0x1000)];
    assert PageAlign(0x1800, 0x1000) == 0x2000;
    assert NewStart(segs, 0, 0x1000) == 0 && NewStart(segs, 1, 0x1000) == 0x2000;
    assert NewSize(segs, 1, 0x1000) == 0x1000 && NewSize(segs, 0, 0x1000) == 0x2000;
    RemapIs(Entries(segs, 0x1000), 0x1800, 0);
  }

  /** By name the translation holds at every offset of the segment, its first byte included. */
  lemma RemapSegIsExact(segs: seq<Segment>, page: u64, m: seq<Info>, i: nat, offset: u64)
    requires Fits(segs, page) && DistinctNames(segs) && SortedFrom(m, Entries(segs, page)) && i < |segs|
    requires segs[i].offset <= offset <= segs[i].offset + segs[i].filesz
    ensures RemapSeg(m, segs[i].name, offset) == Some((NewStart(segs, i, page) + (offset - segs[i].offset), NewSize(segs, i, page)))
  {
    hide NewStart, NewSize, Lookup, SortedFrom, DistinctNames;
    LookupFindsOwnEntry(segs, page, m, i);
    EntryIs(segs, page, i);
  }

  lemma EntryIs(segs: seq<Segment>, page: u64, i: nat)
    requires Fits(segs, page) && i < |segs|
    ensures var e := Entry(segs, i, page);
            && e.newStart == NewStart(segs, i, page) && e.newEnd == e.newStart + NewSize(segs, i, page)
            && e.newStart + segs[i].filesz <= e.newEnd < U64
            && e.oldStart == segs[i].offset && e.oldEnd == segs[i].offset + segs[i].filesz
  {
    hide NewStart, NewSize;
    SizeIs(segs, i, page);
  }

  // ---- Memory sizes ----

  /** exportedSegmentMemsz, in uint64 arithmetic. */
  function ExportedMemsz(filesz: u64, origFilesz: u64, origMemsz: u64): u64 {
    if origMemsz <= origFilesz then filesz
    else if filesz > origFilesz then if filesz < origMemsz then origMemsz else filesz
    else (filesz + (origMemsz - origFilesz)) % U64
  }

  /** A segment whose file part did not shrink keeps its zero-filled memory where it was; one
      that shrank keeps as much of it as it had. */
  lemma MemszKeepsZeroFill(filesz: u64, origFilesz: u64, origMemsz: u64)
    ensures filesz >= origFilesz ==>
              ExportedMemsz(filesz, origFilesz, origMemsz) == if filesz < origMemsz then origMemsz else filesz
    ensures filesz < origFilesz ==>
              ExportedMemsz(filesz, origFilesz, origMemsz) - filesz == if origMemsz > origFilesz then origMemsz - origFilesz else 0
  {
  }
}
