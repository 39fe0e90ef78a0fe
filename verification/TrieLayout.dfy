/** Export tries written out as bytes: what a node's bytes are, and that both readers of
    pkg/trie/trie.go find exactly what a laid-out trie exports. */
module TrieLayout {
  import opened Basics
  import opened Leb128
  import opened TrieFormat
  import opened TrieListing
  import opened TrieWalk
  import opened TrieAgreement

  // ---- A node as bytes ----

  /** An edge: its label and the offset of the node it leads to. */
  datatype To = To(text: seq<byte>, child: u64)

  function OneEdge(e: To): seq<byte> { e.text + [0] + UlebBytes(e.child) }

  function EdgeBytes(es: seq<To>): seq<byte> {
    if es == [] then [] else OneEdge(es[0]) + EdgeBytes(es[1..])
  }

  /** The size of the payload, the payload, the number of edges, the edges. */
  function NodeBytes(payload: seq<byte>, es: seq<To>): seq<byte>
    requires |es| < 256
  {
    UlebBytes(|payload|) + payload + [|es|] + EdgeBytes(es)
  }

  predicate Legal(payload: seq<byte>, es: seq<To>) {
    |payload| < U64 && |es| < 256 && forall i :: 0 <= i < |es| ==> 0 !in es[i].text
  }

  /** Where the payload and the edge count stand, between any prefix and any suffix. */
  lemma HeaderReads(prefix: seq<byte>, payload: seq<byte>, es: seq<To>, suffix: seq<byte>)
    requires Legal(payload, es)
    ensures var data, offset := prefix + NodeBytes(payload, es) + suffix, |prefix| + |UlebBytes(|payload|)|;
            && HeaderAt(data, |prefix|) == Some(Header(|payload|, offset, offset + |payload|))
            && offset + |payload| < |data| && data[offset + |payload|] == |es|
  {
    hide UlebAt, UlebBytes;
    var rest := payload + [|es|] + EdgeBytes(es) + suffix;
    assert prefix + NodeBytes(payload, es) + suffix == prefix + UlebBytes(|payload|) + rest;
    UlebRoundTrip(|payload|, prefix, rest);
  }

  lemma EdgeReads(prefix: seq<byte>, e: To, suffix: seq<byte>)
    requires 0 !in e.text
    ensures EdgeAt(prefix + OneEdge(e) + suffix, |prefix|) == Some(Edge(e.text, e.child, |prefix| + |OneEdge(e)|))
  {
    hide UlebAt, UlebBytes;
    var data, end := prefix + OneEdge(e) + suffix, |prefix| + |e.text|;
    var front := prefix + e.text + [0];
    assert data == front + UlebBytes(e.child) + suffix;
    assert forall i :: |prefix| <= i < end ==> data[i] == e.text[i - |prefix|];
    NulEndIs(data, |prefix|, end);
    assert data[|prefix|..end] == e.text;
    UlebRoundTrip(e.child, front, suffix);
  }

  /** Edge number i, and nothing behind the last one that the count admits. */
  lemma {:induction false} EdgesRead(prefix: seq<byte>, es: seq<To>, suffix: seq<byte>, i: nat)
    requires i < |es| && forall k :: 0 <= k < |es| ==> 0 !in es[k].text
    ensures var e := EdgeNumber(prefix + EdgeBytes(es) + suffix, |prefix|, i);
            e.Some? && e.value.text == es[i].text && e.value.child == es[i].child
    decreases i
  {
    hide EdgeAt, OneEdge;
    var data := prefix + EdgeBytes(es) + suffix;
    assert data == prefix + OneEdge(es[0]) + (EdgeBytes(es[1..]) + suffix);
    EdgeReads(prefix, es[0], EdgeBytes(es[1..]) + suffix);
    if i > 0 {
      assert data == (prefix + OneEdge(es[0])) + EdgeBytes(es[1..]) + suffix;
      EdgesRead(prefix + OneEdge(es[0]), es[1..], suffix, i - 1);
    }
  }

  /** The children of a node are exactly its edges, in order. */
  lemma ChildrenRead(prefix: seq<byte>, payload: seq<byte>, es: seq<To>, suffix: seq<byte>, i: nat)
    requires Legal(payload, es)
    ensures var c := ChildEdge(prefix + NodeBytes(payload, es) + suffix, |prefix|, i);
            if i < |es| then c.Some? && c.value.text == es[i].text && c.value.child == es[i].child else c == None
  {
    hide HeaderAt, EdgeNumber, UlebBytes, EdgeBytes;
    HeaderReads(prefix, payload, es, suffix);
    if i < |es| {
      var front := prefix + UlebBytes(|payload|) + payload + [|es|];
      assert prefix + NodeBytes(payload, es) + suffix == front + EdgeBytes(es) + suffix;
      EdgesRead(front, es, suffix, i);
    }
  }

  // ---- A laid-out trie ----

  /** A trie with the offset each of its nodes stands at. */
  datatype Trie = Trie(at: u64, payload: seq<byte>, branches: seq<Branch>)
  datatype Branch = Branch(text: seq<byte>, below: Trie)

  function Edges(bs: seq<Branch>): (es: seq<To>)
    ensures |es| == |bs| && forall i :: 0 <= i < |bs| ==> es[i] == To(bs[i].text, bs[i].below.at)
  {
    seq(|bs|, i requires 0 <= i < |bs| => To(bs[i].text, bs[i].below.at))
  }

  /** The bytes of a node stand at its offset. */
  predicate Stands(data: seq<byte>, t: Trie) {
    && Legal(t.payload, Edges(t.branches))
    && var bytes := NodeBytes(t.payload, Edges(t.branches));
       t.at + |bytes| <= |data| && data[t.at..t.at + |bytes|] == bytes
  }

  predicate Holds(data: seq<byte>, t: Trie) {
    Stands(data, t) && forall i :: 0 <= i < |t.branches| ==> Holds(data, t.branches[i].below)
  }

  /** The offset of a node's payload. */
  function PayloadAt(t: Trie): nat { t.at + |UlebBytes(|t.payload|)| }

  /** What the trie exports: its payloads in preorder, named by the labels on the way. */
  function Entries(t: Trie, name: seq<byte>): seq<Node>
    decreases t, 0
  {
    (if t.payload != [] then [Node(PayloadAt(t), name)] else []) + BranchEntries(t.branches, name)
  }

  function BranchEntries(bs: seq<Branch>, name: seq<byte>): seq<Node>
    decreases bs
  {
    if bs == [] then [] else Entries(bs[0].below, name + bs[0].text) + BranchEntries(bs[1..], name)
  }

  /** How many nodes a trie has. */
  function Size(t: Trie): nat
    decreases t, 0
  {
    1 + Sizes(t.branches)
  }

  function Sizes(bs: seq<Branch>): nat
    decreases bs
  {
    if bs == [] then 0 else Size(bs[0].below) + Sizes(bs[1..])
  }

  lemma {:induction false} BranchIsSmaller(bs: seq<Branch>, i: nat)
    requires i < |bs|
    ensures Size(bs[i].below) <= Sizes(bs)
  {
    if i > 0 {
      BranchIsSmaller(bs[1..], i - 1);
    }
  }

  /** What the readers see of a node that stands. */
  lemma StandingReads(data: seq<byte>, t: Trie)
    requires Stands(data, t)
    ensures HeaderAt(data, t.at) == Some(Header(|t.payload|, PayloadAt(t), PayloadAt(t) + |t.payload|))
    ensures PayloadAt(t) + |t.payload| < |data| && data[PayloadAt(t) + |t.payload|] == |t.branches|
    ensures data[PayloadAt(t)..PayloadAt(t) + |t.payload|] == t.payload
    ensures forall i: nat :: var c := ChildEdge(data, t.at, i);
              if i < |t.branches| then c.Some? && c.value.text == t.branches[i].text && c.value.child == t.branches[i].below.at
              else c == None
  {
    hide HeaderAt, ChildEdge, UlebBytes, EdgeBytes, Legal;
    FewEdges(data, t);
    var es := Edges(t.branches);
    var bytes := NodeBytes(t.payload, es);
    var prefix, suffix := data[..t.at], data[t.at + |bytes|..];
    assert data == prefix + bytes + suffix;
    HeaderReads(prefix, t.payload, es, suffix);
    assert bytes[|UlebBytes(|t.payload|)|..|UlebBytes(|t.payload|)| + |t.payload|] == t.payload;
    assert data[PayloadAt(t)..PayloadAt(t) + |t.payload|] == bytes[|UlebBytes(|t.payload|)|..|UlebBytes(|t.payload|)| + |t.payload|];
    forall i: nat ensures var c := ChildEdge(data, t.at, i);
              if i < |t.branches| then c.Some? && c.value.text == t.branches[i].text && c.value.child == t.branches[i].below.at
              else c == None {
      ChildrenRead(prefix, t.payload, es, suffix, i);
    }
  }

  lemma FewEdges(data: seq<byte>, t: Trie)
    requires Stands(data, t)
    ensures |t.branches| < 256
  {
  }

  // ---- No node is its own ancestor ----

  /** Bytes determine the trie they hold. */
  lemma {:induction false} OneTrie(data: seq<byte>, s: Trie, t: Trie)
    requires Holds(data, s) && Holds(data, t) && s.at == t.at
    ensures s == t
    decreases s
  {
    hide Stands, HeaderAt, ChildEdge, PayloadAt;
    StandingReads(data, s);
    StandingReads(data, t);
    assert |s.branches| == |t.branches|;
    forall i | 0 <= i < |s.branches| ensures s.branches[i] == t.branches[i] {
      assert ChildEdge(data, s.at, i).Some?;
      OneTrie(data, s.branches[i].below, t.branches[i].below);
    }
    assert s.branches == t.branches;
  }

  function Offsets(t: Trie): set<u64>
    decreases t, 0
  {
    {t.at} + BranchOffsets(t.branches)
  }

  function BranchOffsets(bs: seq<Branch>): set<u64>
    decreases bs
  {
    if bs == [] then {} else Offsets(bs[0].below) + BranchOffsets(bs[1..])
  }

  lemma {:induction false} OffsetsOfBranch(bs: seq<Branch>, i: nat)
    requires i < |bs|
    ensures Offsets(bs[i].below) <= BranchOffsets(bs)
  {
    if i > 0 {
      OffsetsOfBranch(bs[1..], i - 1);
    }
  }

  /** Some node of the trie stands at each of its offsets. */
  lemma {:induction false} NodeAt(data: seq<byte>, t: Trie, at: u64) returns (s: Trie)
    requires Holds(data, t) && at in Offsets(t)
    ensures Holds(data, s) && s.at == at && Size(s) <= Size(t)
    decreases t, 0
  {
    hide Stands;
    if at == t.at {
      s := t;
    } else {
      s := NodeAmong(data, t.branches, at);
    }
  }

  lemma {:induction false} NodeAmong(data: seq<byte>, bs: seq<Branch>, at: u64) returns (s: Trie)
    requires (forall i :: 0 <= i < |bs| ==> Holds(data, bs[i].below)) && at in BranchOffsets(bs)
    ensures Holds(data, s) && s.at == at && Size(s) <= Sizes(bs)
    decreases bs
  {
    hide Stands, Holds;
    if at in Offsets(bs[0].below) {
      s := NodeAt(data, bs[0].below, at);
    } else {
      s := NodeAmong(data, bs[1..], at);
    }
  }

  lemma NotBelowItself(data: seq<byte>, t: Trie)
    requires Holds(data, t)
    ensures t.at !in BranchOffsets(t.branches)
  {
    hide Stands;
    if t.at in BranchOffsets(t.branches) {
      var s := NodeAmong(data, t.branches, t.at);
      OneTrie(data, s, t);
    }
  }

  // ---- ParseTrie ----

  /** The exhaustive reader lists exactly the exports of a laid-out trie, in preorder. */
  lemma {:induction false} ListsLayout(data: seq<byte>, t: Trie, name: seq<byte>, ancestors: set<nat>)
    requires Holds(data, t) && forall p :: p in Offsets(t) ==> p !in ancestors
    ensures Listing(data, t.at, name, ancestors) == Some(Entries(t, name))
    decreases t, 0
  {
    hide Stands, HeaderAt, Positions, Listing, Children, EdgeBytes, UlebBytes;
    StandingReads(data, t);
    NotBelowItself(data, t);
    var prefix, es, suffix := EdgesStand(data, t);
    LegalLabels(data, t);
    ChildrenList(data, prefix, t.branches, suffix, name, ancestors + {t.at});
    ListingUnfolds(data, t.at, name, ancestors);
  }

  lemma LegalLabels(data: seq<byte>, t: Trie)
    requires Stands(data, t)
    ensures forall i :: 0 <= i < |t.branches| ==> 0 !in t.branches[i].text
  {
    var es := Edges(t.branches);
    assert forall i :: 0 <= i < |t.branches| ==> es[i].text == t.branches[i].text;
  }

  lemma ListingUnfolds(data: seq<byte>, pos: nat, name: seq<byte>, ancestors: set<nat>)
    requires HeaderAt(data, pos).Some? && pos !in ancestors && HeaderAt(data, pos).value.children < |data|
    ensures var h := HeaderAt(data, pos).value;
            Listing(data, pos, name, ancestors) ==
            TrieListing.Prepend(if h.terminalSize != 0 then [Node(h.terminalOffset, name)] else [],
                    Children(data, h.children + 1, data[h.children], name, ancestors + {pos}))
  {
    hide HeaderAt, Children;
    HeaderInside(data, pos);
  }

  lemma HeaderInside(data: seq<byte>, pos: nat)
    requires HeaderAt(data, pos).Some?
    ensures pos < |data|
  {
  }

  /** The data around a node's edges. */
  lemma EdgesStand(data: seq<byte>, t: Trie) returns (prefix: seq<byte>, es: seq<To>, suffix: seq<byte>)
    requires Stands(data, t)
    ensures es == Edges(t.branches) && data == prefix + EdgeBytes(es) + suffix && |prefix| == PayloadAt(t) + |t.payload| + 1
    ensures forall i :: 0 <= i < |es| ==> 0 !in es[i].text
  {
    hide UlebBytes, EdgeBytes;
    es := Edges(t.branches);
    var bytes := NodeBytes(t.payload, es);
    prefix, suffix := data[..t.at] + UlebBytes(|t.payload|) + t.payload + [|es|], data[t.at + |bytes|..];
    assert data == data[..t.at] + bytes + suffix;
  }

  lemma {:induction false} ChildrenList(data: seq<byte>, prefix: seq<byte>, bs: seq<Branch>, suffix: seq<byte>, name: seq<byte>, ancestors: set<nat>)
    requires data == prefix + EdgeBytes(Edges(bs)) + suffix
    requires forall i :: 0 <= i < |bs| ==> Holds(data, bs[i].below) && 0 !in bs[i].text
    requires forall p :: p in BranchOffsets(bs) ==> p !in ancestors
    ensures Children(data, |prefix|, |bs|, name, ancestors) == Some(BranchEntries(bs, name))
    decreases bs
  {
    hide Holds, EdgeAt, Listing, OneEdge;
    if bs != [] {
      var e, rest := To(bs[0].text, bs[0].below.at), Edges(bs[1..]);
      assert Edges(bs)[0] == e && Edges(bs)[1..] == rest;
      assert data == prefix + OneEdge(e) + (EdgeBytes(rest) + suffix);
      EdgeReads(prefix, e, EdgeBytes(rest) + suffix);
      ListsLayout(data, bs[0].below, name + bs[0].text, ancestors);
      assert data == (prefix + OneEdge(e)) + EdgeBytes(rest) + suffix;
      ChildrenList(data, prefix + OneEdge(e), bs[1..], suffix, name, ancestors);
    }
  }

  // ---- WalkTrie ----

  /** The labels at every node are told apart by their first bytes. */
  predicate Distinct(t: Trie) {
    && (forall i :: 0 <= i < |t.branches| ==> t.branches[i].text != [] && Distinct(t.branches[i].below))
    && forall i, j :: 0 <= i < j < |t.branches| && t.branches[i].text != [] && t.branches[j].text != [] ==>
         t.branches[i].text[0] != t.branches[j].text[0]
  }

  /** Every path from a laid-out trie's root ends at one of its nodes. */
  lemma {:induction false} FollowStays(data: seq<byte>, t: Trie, path: seq<nat>) returns (s: Trie)
    requires Holds(data, t) && Distinct(t) && Follow(data, t.at, path).Some?
    ensures Holds(data, s) && Distinct(s) && s.at == Follow(data, t.at, path).value.pos
    decreases |path|
  {
    hide Stands, Follow, ChildEdge, HeaderAt;
    if path == [] {
      FollowNowhere(data, t.at);
      s := t;
    } else {
      StandingReads(data, t);
      assert path == [path[0]] + path[1..];
      FollowCons(data, t.at, path[0], path[1..]);
      s := FollowStays(data, t.branches[path[0]].below, path[1..]);
    }
  }

  lemma LayoutDiscriminates(data: seq<byte>, t: Trie)
    requires Holds(data, t) && Distinct(t)
    ensures Discriminating(data, t.at)
  {
    hide Stands, Follow, ChildEdge, HeaderAt, DistinctEdges;
    forall path | Follow(data, t.at, path).Some? ensures DistinctEdges(data, Follow(data, t.at, path).value.pos) {
      var s := FollowStays(data, t, path);
      NodeDiscriminates(data, s);
    }
  }

  lemma NodeDiscriminates(data: seq<byte>, s: Trie)
    requires Stands(data, s) && Distinct(s)
    ensures DistinctEdges(data, s.at)
  {
    hide Stands, ChildEdge, HeaderAt;
    StandingReads(data, s);
  }

  /** The search finds a symbol exactly where a laid-out trie exports it. */
  lemma WalkFindsLayout(data: seq<byte>, t: Trie, symbol: seq<byte>, offset: nat)
    requires Holds(data, t) && Distinct(t) && t.at == 0
    ensures Ends(data, symbol, Found(offset)) <==> Node(offset, symbol) in Entries(t, [])
  {
    hide Holds, Distinct, Listing, Entries, Ends, Discriminating;
    ListsLayout(data, t, [], {});
    LayoutDiscriminates(data, t);
    FoundIffListed(data, symbol, offset);
  }

  /** Seventeen bytes that export _a, with its payload at 7, and _ab below it, at 14. */
  lemma SmallTrie()
    ensures var data := [0x00, 0x01, 0x5F, 0x61, 0x00, 0x06, 0x02, 0x00, 0x10, 0x01, 0x62, 0x00, 0x0D, 0x02, 0x00, 0x20, 0x00];
            && Listing(data, 0, [], {}) == Some([Node(7, [0x5F, 0x61]), Node(14, [0x5F, 0x61, 0x62])])
            && Ends(data, [0x5F, 0x61], Found(7)) && Ends(data, [0x5F, 0x61, 0x62], Found(14))
  {
    hide Listing, Ends;
    var data := [0x00, 0x01, 0x5F, 0x61, 0x00, 0x06, 0x02, 0x00, 0x10, 0x01, 0x62, 0x00, 0x0D, 0x02, 0x00, 0x20, 0x00];
    var t := SmallTrieStands(data);
    ListsLayout(data, t, [], {});
    WalkFindsLayout(data, t, [0x5F, 0x61], 7);
    WalkFindsLayout(data, t, [0x5F, 0x61, 0x62], 14);
  }

  lemma SmallTrieStands(data: seq<byte>) returns (t: Trie)
    requires data == [0x00, 0x01, 0x5F, 0x61, 0x00, 0x06, 0x02, 0x00, 0x10, 0x01, 0x62, 0x00, 0x0D, 0x02, 0x00, 0x20, 0x00]
    ensures Holds(data, t) && Distinct(t) && t.at == 0
    ensures Entries(t, []) == [Node(7, [0x5F, 0x61]), Node(14, [0x5F, 0x61, 0x62])]
  {
    var ab := Trie(13, [0x00, 0x20], []);
    var a := Trie(6, [0x00, 0x10], [Branch([0x62], ab)]);
    t := Trie(0, [], [Branch([0x5F, 0x61], a)]);
    LeafStands(data, 13, 0x20);
    assert data[6..13] == [0x02, 0x00, 0x10, 0x01, 0x62, 0x00, 0x0D];
    OneBranchStands(data, a, 0x62, []);
    assert data[0..6] == [0x00, 0x01, 0x5F, 0x61, 0x00, 0x06];
    OneBranchStands(data, t, 0x5F, [0x61]);
    var small := [0x5F, 0x61];
    assert small + [0x62] == [0x5F, 0x61, 0x62] && [] + small == small;
    LeafEntries(ab, small + [0x62]);
    OneBranchEntries(a, small);
    OneBranchEntries(t, []);
  }

  lemma LeafStands(data: seq<byte>, at: u64, b: byte)
    requires at + 4 <= |data| && data[at..at + 4] == [0x02, 0x00, b, 0x00]
    ensures Holds(data, Trie(at, [0x00, b], [])) && PayloadAt(Trie(at, [0x00, b], [])) == at + 1
  {
    assert UlebBytes(2) == [2];
    assert NodeBytes([0x00, b], []) == [0x02, 0x00, b, 0x00];
  }

  lemma OneBranchStands(data: seq<byte>, t: Trie, first: byte, more: seq<byte>)
    requires |t.branches| == 1 && t.branches[0].text == [first] + more && 0 !in t.branches[0].text
    requires |t.payload| < 128 && t.branches[0].below.at < 128
    requires t.at + 4 + |t.payload| + |t.branches[0].text| <= |data|
    requires data[t.at..t.at + 4 + |t.payload| + |t.branches[0].text|] ==
             [|t.payload|] + t.payload + [1] + t.branches[0].text + [0, t.branches[0].below.at]
    ensures Stands(data, t) && PayloadAt(t) == t.at + 1
  {
    var e := To(t.branches[0].text, t.branches[0].below.at);
    assert Edges(t.branches) == [e];
    assert UlebBytes(|t.payload|) == [|t.payload|] && UlebBytes(e.child) == [e.child];
    assert [e][1..] == [];
    assert EdgeBytes([e]) == e.text + [0] + [e.child] + [];
  }

  lemma LeafEntries(t: Trie, name: seq<byte>)
    requires t.branches == []
    ensures Entries(t, name) == if t.payload != [] then [Node(PayloadAt(t), name)] else []
  {
  }

  lemma OneBranchEntries(t: Trie, name: seq<byte>)
    requires |t.branches| == 1
    ensures Entries(t, name) ==
            (if t.payload != [] then [Node(PayloadAt(t), name)] else []) + Entries(t.branches[0].below, name + t.branches[0].text)
  {
    assert t.branches[1..] == [];
    assert BranchEntries(t.branches, name) == Entries(t.branches[0].below, name + t.branches[0].text) + [];
  }
}
