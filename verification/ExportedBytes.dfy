/** What a standalone export of export.go leaves in the output: every segment's bytes at its new
    place, zeros between them, and a Remap that finds the bytes again. */
module ExportedBytes {
  import opened Basics
  import opened SegmentMap
  import opened SegmentExport

  /** Distinct names, a layout that does not wrap, and __TEXT as the first segment with file
      data: what the write loop relies on. */
  ghost predicate Regular(segs: seq<Segment>, page: u64, t: nat) {
    && Fits(segs, page) && DistinctNames(segs)
    && t < |segs| && segs[t].name == TEXT && segs[t].filesz > 0
    && forall i :: 0 <= i < t ==> segs[i].filesz == 0
  }

  predicate Readable(file: Bytes, s: Segment) { s.offset <= MAX_INT64 && s.offset + s.filesz <= |file| }

  /** size bytes from start on hold dat, from its byte `from` on, and zeros behind it. */
  ghost predicate CopiedTo(out: Bytes, start: nat, dat: Bytes, from: nat, size: nat) {
    && from <= |dat| <= size && start + size <= |out|
    && out[start + from..start + |dat|] == dat[from..]
    && out[start + |dat|..start + size] == Zeros(size - |dat|)
  }

  function Data(file: Bytes, s: Segment): (d: Bytes)
    requires Readable(file, s)
    ensures |d| == s.filesz
  {
    file[s.offset..s.offset + s.filesz]
  }

  /** Segment i is in the output at its new place: its bytes from `from` on, then zeros. */
  ghost predicate Placed(out: Bytes, file: Bytes, segs: seq<Segment>, page: u64, i: nat, from: nat)
    requires Fits(segs, page) && i < |segs|
  {
    Readable(file, segs[i]) && CopiedTo(out, NewStart(segs, i, page), Data(file, segs[i]), from, NewSize(segs, i, page))
  }

  // ---- Copies ----

  lemma AppendCopies(buf: Bytes, dat: Bytes, size: nat)
    requires |dat| <= size
    ensures var out := PadTo(buf + dat, |buf| + size);
            CopiedTo(out, |buf|, dat, 0, size) && |out| == |buf| + size && out[..|buf|] == buf
  {
    var out := PadTo(buf + dat, |buf| + size);
    assert out[..|buf + dat|] == buf + dat;
    assert out[..|buf|] == (buf + dat)[..|buf|];
    assert out[|buf|..|buf| + |dat|] == (buf + dat)[|buf|..];
  }

  lemma TextCopies(head: Bytes, dat: Bytes, from: nat, size: nat)
    requires |head| <= from <= |dat| <= size
    ensures var out := PadTo(head + Zeros(from - |head|) + dat[from..], size);
            && CopiedTo(out, 0, dat, from, size) && |out| == size && out[..|head|] == head
            && forall x :: |head| <= x < from ==> out[x] == 0
  {
    var text := head + Zeros(from - |head|) + dat[from..];
    var out := PadTo(text, size);
    assert |text| == |dat| && out[..|text|] == text;
    assert out[..|head|] == text[..|head|];
    assert out[from..|dat|] == text[from..];
    assert forall x :: |head| <= x < from ==> out[x] == out[..|text|][x];
  }

  lemma StillCopied(out: Bytes, more: Bytes, start: nat, dat: Bytes, from: nat, size: nat)
    requires CopiedTo(out, start, dat, from, size) && |out| <= |more| && more[..|out|] == out
    ensures CopiedTo(more, start, dat, from, size)
  {
    assert more[start + from..start + |dat|] == more[..|out|][start + from..start + |dat|];
    assert more[start + |dat|..start + size] == more[..|out|][start + |dat|..start + size];
  }

  lemma CopiedByte(out: Bytes, start: nat, dat: Bytes, from: nat, size: nat, x: nat)
    requires CopiedTo(out, start, dat, from, size) && from <= x < |dat|
    ensures out[start + x] == dat[x]
  {
    assert out[start + x] == out[start + from..start + |dat|][x - from];
  }

  // ---- The new layout ----

  lemma RelaidIs(segs: seq<Segment>, page: u64, m: seq<Info>, i: nat)
    requires Fits(segs, page) && DistinctNames(segs) && SortedFrom(m, Entries(segs, page)) && i < |segs|
    ensures Relaid(m, segs[i]) ==
            Some(Segment(segs[i].name, NewStart(segs, i, page), NewSize(segs, i, page),
                         if NewSize(segs, i, page) < segs[i].memsz then segs[i].memsz else NewSize(segs, i, page)))
  {
    hide NewStart, NewSize, Lookup, SortedFrom, DistinctNames, ExportedMemsz;
    RemapSegIsExact(segs, page, m, i, segs[i].offset);
    LookupFindsOwnEntry(segs, page, m, i);
    SizeIs(segs, i, page);
    MemszKeepsZeroFill(NewSize(segs, i, page), segs[i].filesz, segs[i].memsz);
  }

  /** Every segment is given its slot of the new layout; memory sizes never shrink. */
  lemma {:induction false} RelaidAllIs(segs: seq<Segment>, page: u64, m: seq<Info>, k: nat)
    requires Fits(segs, page) && DistinctNames(segs) && SortedFrom(m, Entries(segs, page)) && k <= |segs|
    ensures var r := RelaidAll(m, segs[..k]);
            && r.Some? && |r.value| == k
            && forall i :: 0 <= i < k ==>
                 && r.value[i].name == segs[i].name
                 && r.value[i].offset == NewStart(segs, i, page) && r.value[i].filesz == NewSize(segs, i, page)
                 && r.value[i].memsz >= segs[i].memsz && r.value[i].memsz >= r.value[i].filesz
  {
    hide NewStart, NewSize, Relaid, SortedFrom, Fits, DistinctNames;
    if k > 0 {
      RelaidAllIs(segs, page, m, k - 1);
      RelaidIs(segs, page, m, k - 1);
      assert segs[..k][..k - 1] == segs[..k - 1];
    }
  }

  lemma BeforeTextIsEmpty(segs: seq<Segment>, page: u64, t: nat, i: nat)
    requires Regular(segs, page, t) && i <= t
    ensures NewStart(segs, i, page) == 0
  {
    hide NewSize, DistinctNames;
    forall k | 0 <= k < t ensures NewSize(segs, k, page) == 0 {
      SizeIs(segs, k, page);
    }
    if i > 0 {
      StartsAscend(segs, 0, i, page);
    }
  }

  // ---- One turn of the loop ----

  /** What a turn does, once names are resolved. */
  lemma TurnIs(buf: Bytes, file: Bytes, m: seq<Info>, segs: seq<Segment>, page: u64, i: nat, s: Segment, first: nat, endOfLoads: nat)
    requires Fits(segs, page) && DistinctNames(segs) && SortedFrom(m, Entries(segs, page)) && i < |segs|
    requires s.name == segs[i].name && s.filesz == NewSize(segs, i, page)
    ensures WriteSegment(buf, file, m, s, first, endOfLoads) ==
            var start := NewStart(segs, i, page);
            var end := start + NewSize(segs, i, page);
            if segs[i].filesz == 0 then Some(PadTo(buf, start))
            else if !Readable(file, segs[i]) then None
            else
              var dat := Data(file, segs[i]);
              if s.name != TEXT then Some(PadTo(PadTo(buf, start) + dat, end))
              else if Max(first, endOfLoads) > segs[i].filesz then None
              else Some(PadTo(PadTo(buf, start) + Zeros(Max(first, endOfLoads) - endOfLoads) + dat[Max(first, endOfLoads)..], end))
  {
    hide NewStart, NewSize, Lookup, SortedFrom, DistinctNames, PadTo, Zeros;
    LookupFindsOwnEntry(segs, page, m, i);
    EntryIs(segs, page, i);
    SizeIs(segs, i, page);
  }

  // ---- The whole loop ----

  /** The buffer after k segments. */
  ghost predicate Progress(buf: Bytes, head: Bytes, file: Bytes, segs: seq<Segment>, page: u64, t: nat, from: nat, k: nat)
    requires Regular(segs, page, t) && k <= |segs|
  {
    if k <= t then buf == head
    else
      && |buf| == NewStart(segs, k, page) && |head| <= from <= |buf| && buf[..|head|] == head
      && (forall x :: |head| <= x < from ==> buf[x] == 0)
      && (forall i :: 0 <= i < k && segs[i].filesz > 0 ==> Placed(buf, file, segs, page, i, if i == t then from else 0))
  }

  /** The first k segments can be written. */
  ghost predicate CanWrite(file: Bytes, segs: seq<Segment>, t: nat, from: nat, k: nat)
    requires t < |segs| && k <= |segs|
  {
    && (k > t ==> from <= segs[t].filesz)
    && forall i :: 0 <= i < k && segs[i].filesz > 0 ==> Readable(file, segs[i])
  }

  lemma TextTurn(buf: Bytes, head: Bytes, file: Bytes, m: seq<Info>, segs: seq<Segment>, page: u64, t: nat, s: Segment, first: nat)
    requires Regular(segs, page, t) && SortedFrom(m, Entries(segs, page))
    requires s.name == segs[t].name && s.filesz == NewSize(segs, t, page) && buf == head
    ensures var next := WriteSegment(buf, file, m, s, first, |head|);
            var from := Max(first, |head|);
            && (next.Some? <==> from <= segs[t].filesz && Readable(file, segs[t]))
            && (next.Some? ==> Progress(next.value, head, file, segs, page, t, from, t + 1))
  {
    hide NewStart, NewSize, SortedFrom, DistinctNames, WriteSegment, CopiedTo, PadTo, Zeros;
    var from := Max(first, |head|);
    TurnIs(buf, file, m, segs, page, t, s, first, |head|);
    BeforeTextIsEmpty(segs, page, t, t);
    NextStart(segs, t, page);
    SizeIs(segs, t, page);
    assert PadTo(head, 0) == head by { NoPadding(head, 0); }
    if from <= segs[t].filesz && Readable(file, segs[t]) {
      TextCopies(head, Data(file, segs[t]), from, NewSize(segs, t, page));
    }
  }

  lemma OtherTurn(buf: Bytes, head: Bytes, file: Bytes, m: seq<Info>, segs: seq<Segment>, page: u64, t: nat, k: nat, s: Segment, first: nat)
    requires Regular(segs, page, t) && SortedFrom(m, Entries(segs, page)) && k < |segs| && k != t
    requires s.name == segs[k].name && s.filesz == NewSize(segs, k, page)
    requires Progress(buf, head, file, segs, page, t, Max(first, |head|), k)
    ensures var next := WriteSegment(buf, file, m, s, first, |head|);
            && (next.Some? <==> segs[k].filesz == 0 || Readable(file, segs[k]))
            && (next.Some? ==> Progress(next.value, head, file, segs, page, t, Max(first, |head|), k + 1))
  {
    hide NewStart, NewSize, SortedFrom, DistinctNames, WriteSegment, CopiedTo, Max, PadTo, Data;
    TurnIs(buf, file, m, segs, page, k, s, first, |head|);
    NextStart(segs, k, page);
    SizeIs(segs, k, page);
    assert s.name != TEXT by { OnlyTextIsText(segs, page, t, k); }
    if k < t {
      BeforeTextIsEmpty(segs, page, t, k);
      NoPadding(buf, 0);
    } else {
      NoPadding(buf, |buf|);
      if segs[k].filesz > 0 && Readable(file, segs[k]) {
        AppendCopies(buf, Data(file, segs[k]), NewSize(segs, k, page));
        var next := PadTo(buf + Data(file, segs[k]), |buf| + NewSize(segs, k, page));
        AppendedKeepsProgress(buf, next, head, file, segs, page, t, Max(first, |head|), k);
      }
    }
  }

  lemma NoPadding(buf: Bytes, end: nat)
    requires end <= |buf|
    ensures PadTo(buf, end) == buf
  {
  }

  lemma OnlyTextIsText(segs: seq<Segment>, page: u64, t: nat, k: nat)
    requires Regular(segs, page, t) && k < |segs| && k != t
    ensures segs[k].name != TEXT
  {
  }

  lemma AppendedKeepsProgress(buf: Bytes, next: Bytes, head: Bytes, file: Bytes, segs: seq<Segment>, page: u64, t: nat, from: nat, k: nat)
    requires Regular(segs, page, t) && t < k < |segs| && Progress(buf, head, file, segs, page, t, from, k)
    requires |buf| <= |next| && next[..|buf|] == buf && |next| == NewStart(segs, k + 1, page) && Placed(next, file, segs, page, k, 0)
    ensures Progress(next, head, file, segs, page, t, from, k + 1)
  {
    hide NewStart, NewSize, CopiedTo, Readable, Data;
    assert next[..|head|] == next[..|buf|][..|head|];
    assert forall x :: 0 <= x < |buf| ==> next[x] == next[..|buf|][x];
    forall i | 0 <= i < k && segs[i].filesz > 0 ensures Placed(next, file, segs, page, i, if i == t then from else 0) {
      StillCopied(buf, next, NewStart(segs, i, page), Data(file, segs[i]), if i == t then from else 0, NewSize(segs, i, page));
    }
  }

  lemma {:induction false} LoopPlaces(head: Bytes, file: Bytes, m: seq<Info>, segs: seq<Segment>, relaid: seq<Segment>,
                                      page: u64, t: nat, first: nat, k: nat)
    requires Regular(segs, page, t) && SortedFrom(m, Entries(segs, page)) && k <= |segs| == |relaid|
    requires forall i :: 0 <= i < |segs| ==> relaid[i].name == segs[i].name && relaid[i].filesz == NewSize(segs, i, page)
    ensures var out := WriteAll(head, file, m, relaid[..k], first);
            && (out.Some? <==> CanWrite(file, segs, t, Max(first, |head|), k))
            && (out.Some? ==> Progress(out.value, head, file, segs, page, t, Max(first, |head|), k))
  {
    hide Regular, Progress, WriteSegment, NewSize, Readable, SortedFrom, Max;
    if k == 0 {
      assert relaid[..0] == [];
      StartsWithHead(head, file, segs, page, t, Max(first, |head|));
    } else {
      LoopPlaces(head, file, m, segs, relaid, page, t, first, k - 1);
      assert relaid[..k][..k - 1] == relaid[..k - 1];
      var before := WriteAll(head, file, m, relaid[..k - 1], first);
      if before.Some? {
        if k - 1 == t {
          assert before.value == head by { BeforeTextIsHead(before.value, head, file, segs, page, t, Max(first, |head|)); }
          TextTurn(before.value, head, file, m, segs, page, t, relaid[t], first);
          TextIsBacked(segs, page, t);
        } else {
          OtherTurn(before.value, head, file, m, segs, page, t, k - 1, relaid[k - 1], first);
        }
      }
    }
  }

  lemma StartsWithHead(head: Bytes, file: Bytes, segs: seq<Segment>, page: u64, t: nat, from: nat)
    requires Regular(segs, page, t)
    ensures Progress(head, head, file, segs, page, t, from, 0) && t < |segs|
  {
  }

  lemma BeforeTextIsHead(buf: Bytes, head: Bytes, file: Bytes, segs: seq<Segment>, page: u64, t: nat, from: nat)
    requires Regular(segs, page, t) && Progress(buf, head, file, segs, page, t, from, t)
    ensures buf == head
  {
  }

  lemma TextIsBacked(segs: seq<Segment>, page: u64, t: nat)
    requires Regular(segs, page, t)
    ensures segs[t].filesz > 0
  {
  }

  // ---- The other load commands ----

  /** Some segment's old range, its end included, holds the offset. */
  predicate Covered(segs: seq<Segment>, offset: u64) {
    exists i :: 0 <= i < |segs| && segs[i].offset <= offset <= segs[i].offset + segs[i].filesz
  }

  lemma {:induction false} RemapFoundExactly(m: seq<Info>, offset: u64)
    ensures Remap(m, offset).Some? <==> exists i :: 0 <= i < |m| && Touches(m[i], offset)
  {
    if m != [] && !Touches(m[0], offset) {
      RemapFoundExactly(m[1..], offset);
      assert forall i :: 1 <= i < |m| ==> m[i] == m[1..][i - 1];
      if i :| 0 <= i < |m[1..]| && Touches(m[1..][i], offset) {
        assert Touches(m[i + 1], offset);
      }
    }
  }

  lemma LinkFoundExactly(segs: seq<Segment>, page: u64, m: seq<Info>, l: Link)
    requires Fits(segs, page) && SortedFrom(m, Entries(segs, page))
    ensures Relinked(m, l).Some? <==> (l.skipsZero && l.offset == 0) || Covered(segs, l.offset)
  {
    hide Remap, NewStart, NewSize, SortedFrom;
    RemapFoundExactly(m, l.offset);
    if i :| 0 <= i < |segs| && segs[i].offset <= l.offset <= segs[i].offset + segs[i].filesz {
      var p := EntryListed(segs, page, m, i);
      EntryIs(segs, page, i);
      assert Touches(m[p], l.offset);
    }
    if p :| 0 <= p < |m| && Touches(m[p], l.offset) {
      var i := ListedEntry(segs, page, m, p);
      EntryIs(segs, page, i);
    }
  }

  predicate LinksCovered(segs: seq<Segment>, links: seq<Link>) {
    forall i :: 0 <= i < |links| ==> (links[i].skipsZero && links[i].offset == 0) || Covered(segs, links[i].offset)
  }

  lemma {:induction false} LinksFoundExactly(segs: seq<Segment>, page: u64, m: seq<Info>, links: seq<Link>)
    requires Fits(segs, page) && SortedFrom(m, Entries(segs, page))
    ensures RelinkedAll(m, links).Some? <==> LinksCovered(segs, links)
  {
    hide Relinked, Covered, SortedFrom;
    if links != [] {
      var n := |links| - 1;
      LinksFoundExactly(segs, page, m, links[..n]);
      LinkFoundExactly(segs, page, m, links[n]);
      assert links == links[..n] + [links[n]];
    }
  }

  // ---- The exported file ----

  /** The export succeeds exactly if the sections of __TEXT are in order, every file offset in the
      other load commands lies in a segment, the new load commands leave room in __TEXT and every
      segment's data is there to read. The output is then the new header and load commands, zeros
      up to where the data of __TEXT starts, and every file-backed segment at its new place
      followed by zeros, up to the end of the last one. */
  lemma ExportPlacesSegments(head: Bytes, file: Bytes, m: seq<Info>, segs: seq<Segment>, links: seq<Link>, page: u64, t: nat,
                             sections: TextSections)
    requires Regular(segs, page, t) && SortedFrom(m, Entries(segs, page))
    ensures var out, first := Exported(head, file, m, segs, links, sections), FirstSectionRelOff(segs, sections);
            && (out.Some? <==> first.Some? && LinksCovered(segs, links)
                               && CanWrite(file, segs, t, Max(first.value, |head|), |segs|))
            && (out.Some? ==>
                  var from := Max(first.value, |head|);
                  && |out.value| == NewStart(segs, |segs|, page) && |head| <= from <= |out.value| && out.value[..|head|] == head
                  && (forall x :: |head| <= x < from ==> out.value[x] == 0)
                  && (forall i :: 0 <= i < |segs| && segs[i].filesz > 0 ==>
                        Placed(out.value, file, segs, page, i, if i == t then from else 0)))
  {
    hide WriteAll, RelaidAll, RelinkedAll, LinksCovered, FirstSectionRelOff, Placed, NewSize, NewStart, SortedFrom, CanWrite, Max, Fits;
    assert segs[..|segs|] == segs;
    RelaidAllIs(segs, page, m, |segs|);
    LinksFoundExactly(segs, page, m, links);
    var relaid := RelaidAll(m, segs).value;
    var first := FirstSectionRelOff(segs, sections);
    if first.Some? {
      LoopPlaces(head, file, m, segs, relaid, page, t, first.value, |segs|);
      assert relaid[..|segs|] == relaid;
    }
  }

  /** A file that ends in __LINKEDIT is exported to one that ends with that segment's last byte:
      nothing may follow a signature there. */
  lemma ExportEndsWithLinkedit(head: Bytes, file: Bytes, m: seq<Info>, segs: seq<Segment>, links: seq<Link>, page: u64, t: nat,
                               sections: TextSections)
    requires Regular(segs, page, t) && SortedFrom(m, Entries(segs, page)) && Exported(head, file, m, segs, links, sections).Some?
    requires var last := segs[|segs| - 1]; last.name == "__LINKEDIT" && last.filesz > 0
    ensures var out, last := Exported(head, file, m, segs, links, sections).value, segs[|segs| - 1];
            && |out| == NewStart(segs, |segs| - 1, page) + last.filesz && last.offset + last.filesz <= |file|
            && out[|out| - last.filesz..] == file[last.offset..last.offset + last.filesz]
  {
    hide Exported, FirstSectionRelOff, SortedFrom, Max, NewStart, NewSize, CopiedTo, DistinctNames, CanWrite, LinksCovered;
    var n := |segs| - 1;
    ExportPlacesSegments(head, file, m, segs, links, page, t, sections);
    assert Fits(segs, page) && n != t;
    SizeIsPadded(segs, n, page);
    NextStart(segs, n, page);
    var out := Exported(head, file, m, segs, links, sections).value;
    assert Placed(out, file, segs, page, n, 0);
    CopiedWhole(out, NewStart(segs, n, page), Data(file, segs[n]), NewSize(segs, n, page));
  }

  lemma CopiedWhole(out: Bytes, start: nat, dat: Bytes, size: nat)
    requires CopiedTo(out, start, dat, 0, size) && size == |dat| && |out| == start + size
    ensures out[|out| - |dat|..] == dat
  {
    assert out[start + 0..start + |dat|] == dat[0..];
    assert out[start..] == out[start..start + |dat|];
  }

  /** Every file offset strictly inside an old range, outside the replaced start of __TEXT, is
      remapped to where that byte is in the output. */
  lemma RemapFindsByte(head: Bytes, file: Bytes, m: seq<Info>, segs: seq<Segment>, links: seq<Link>, page: u64, t: nat,
                       sections: TextSections, i: nat, offset: u64)
    requires Regular(segs, page, t) && SortedFrom(m, Entries(segs, page)) && DisjointOld(m)
    requires Exported(head, file, m, segs, links, sections).Some?
    requires i < |segs| && segs[i].offset < offset < segs[i].offset + segs[i].filesz
    requires i == t ==> offset - segs[t].offset >= Max(FirstSectionRelOff(segs, sections).value, |head|)
    ensures var out, p := Exported(head, file, m, segs, links, sections).value, Remap(m, offset);
            p.Some? && p.value < |out| && offset < |file| && out[p.value] == file[offset]
  {
    hide Exported, FirstSectionRelOff, Remap, SortedFrom, Regular, DisjointOld, Placed, Max, NewStart, NewSize, Fits, Entry;
    RegularFits(segs, page, t);
    ExportPlacesSegments(head, file, m, segs, links, page, t, sections);
    var out := Exported(head, file, m, segs, links, sections).value;
    var x := offset - segs[i].offset;
    PlacedByte(out, file, segs, page, i, if i == t then Max(FirstSectionRelOff(segs, sections).value, |head|) else 0, x);
    RemapOwn(segs, page, m, i, offset);
  }

  /** So a load command's offset there leads to the same byte in the output, exactly if its field
      can hold the new offset. */
  lemma LinkFindsByte(head: Bytes, file: Bytes, m: seq<Info>, segs: seq<Segment>, links: seq<Link>, page: u64, t: nat,
                      sections: TextSections, i: nat, l: Link)
    requires Regular(segs, page, t) && SortedFrom(m, Entries(segs, page)) && DisjointOld(m)
    requires Exported(head, file, m, segs, links, sections).Some?
    requires i < |segs| && segs[i].offset < l.offset < segs[i].offset + segs[i].filesz
    requires i == t ==> l.offset - segs[t].offset >= Max(FirstSectionRelOff(segs, sections).value, |head|)
    ensures var out, p, r := Exported(head, file, m, segs, links, sections).value, Remap(m, l.offset), Relinked(m, l);
            && p.Some? && r.Some? && p.value < |out| && l.offset < |file| && out[p.value] == file[l.offset]
            && (r.value.offset == p.value <==> l.wide || p.value < U32)
  {
    hide Exported, FirstSectionRelOff, Remap, SortedFrom, Regular, DisjointOld, Max;
    RemapFindsByte(head, file, m, segs, links, page, t, sections, i, l.offset);
  }

  lemma RemapOwn(segs: seq<Segment>, page: u64, m: seq<Info>, i: nat, offset: u64)
    requires Fits(segs, page) && SortedFrom(m, Entries(segs, page)) && DisjointOld(m)
    requires i < |segs| && segs[i].offset < offset < segs[i].offset + segs[i].filesz
    ensures Remap(m, offset) == Some(NewStart(segs, i, page) + (offset - segs[i].offset))
  {
    hide Remap, NewStart, NewSize, SortedFrom, DisjointOld;
    var j := EntryListed(segs, page, m, i);
    EntryIs(segs, page, i);
    RemapInside(m, j, offset);
  }

  lemma RegularFits(segs: seq<Segment>, page: u64, t: nat)
    requires Regular(segs, page, t)
    ensures Fits(segs, page) && t < |segs| && page > 0
  {
  }

  lemma PlacedByte(out: Bytes, file: Bytes, segs: seq<Segment>, page: u64, i: nat, from: nat, x: nat)
    requires Fits(segs, page) && i < |segs| && Placed(out, file, segs, page, i, from) && from <= x < segs[i].filesz
    ensures NewStart(segs, i, page) + x < |out| && segs[i].offset + x < |file|
    ensures out[NewStart(segs, i, page) + x] == file[segs[i].offset + x]
  {
    hide NewStart, NewSize;
    CopiedByte(out, NewStart(segs, i, page), Data(file, segs[i]), from, NewSize(segs, i, page), x);
  }
}
