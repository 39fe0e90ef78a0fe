/** The two readers of the export trie agree: what WalkTrie finds is what ParseTrie lists. */
module TrieAgreement {
  import opened Basics
  import opened Leb128
  import opened TrieFormat
  import opened TrieListing
  import opened TrieWalk

  // ---- Comparing one label ----

  /** Where reading continues after the label at cursor. */
  function AfterLabel(data: seq<byte>, cursor: nat): nat
    requires cursor <= |data|
  {
    var end := NulEnd(data, cursor);
    if end < |data| then end + 1 else end
  }

  lemma {:induction false} CompareSkips(data: seq<byte>, cursor: nat, symbol: seq<byte>, index: nat)
    requires cursor <= |data| && index <= |symbol|
    ensures Compare(data, cursor, symbol, index, true) == Mismatched(AfterLabel(data, cursor))
    decreases |data| - cursor
  {
    if cursor < |data| && data[cursor] != 0 {
      CompareSkips(data, cursor + 1, symbol, index);
    }
  }

  /** The comparison matches exactly when the symbol continues with the whole label, and a
      label that differs in its first byte is stepped over. */
  lemma {:induction false} CompareDecides(data: seq<byte>, cursor: nat, symbol: seq<byte>, index: nat)
    requires cursor <= |data| && index <= |symbol|
    ensures var text := data[cursor..NulEnd(data, cursor)];
            var c := Compare(data, cursor, symbol, index, false);
            && (text <= symbol[index..] ==> c == Matched(index + |text|, AfterLabel(data, cursor)))
            && (c.Matched? ==> text <= symbol[index..])
            && (c.Mismatched? ==> c.next == AfterLabel(data, cursor))
            && (text != [] && index < |symbol| && text[0] != symbol[index] ==> c == Mismatched(AfterLabel(data, cursor)))
    decreases |data| - cursor
  {
    var text := data[cursor..NulEnd(data, cursor)];
    if cursor < |data| && data[cursor] != 0 && index < |symbol| {
      assert text == [data[cursor]] + data[cursor + 1..NulEnd(data, cursor + 1)];
      assert symbol[index..] == [symbol[index]] + symbol[index + 1..];
      if data[cursor] == symbol[index] {
        CompareDecides(data, cursor + 1, symbol, index + 1);
      } else {
        CompareSkips(data, cursor + 1, symbol, index + 1);
      }
    }
  }

  /** An edge whose number follows its label in the data decodes as that edge. */
  lemma EdgeFromLabel(data: seq<byte>, cursor: nat)
    requires cursor <= |data|
    ensures UlebAt(data, AfterLabel(data, cursor)).Value? <==> EdgeAt(data, cursor).Some?
    ensures EdgeAt(data, cursor).Some? ==>
              var u, e := UlebAt(data, AfterLabel(data, cursor)), EdgeAt(data, cursor).value;
              u == Value(e.child, e.next) && e.text == data[cursor..NulEnd(data, cursor)]
  {
  }

  // ---- Choosing an edge ----

  lemma {:induction false} ChosenEdgeMatches(data: seq<byte>, cursor: nat, remaining: nat, symbol: seq<byte>, index: nat) returns (i: nat)
    requires cursor <= |data| && index <= |symbol|
    requires Choose(data, cursor, remaining, symbol, index).Taken?
    ensures i < remaining && EdgeNumber(data, cursor, i).Some?
    ensures var c, e := Choose(data, cursor, remaining, symbol, index), EdgeNumber(data, cursor, i).value;
            e.child == c.child && e.text <= symbol[index..] && c.index == index + |e.text|
    decreases remaining
  {
    hide Compare, UlebAt, NulEnd, EdgeAt;
    CompareDecides(data, cursor, symbol, index);
    EdgeFromLabel(data, cursor);
    if Compare(data, cursor, symbol, index, false).Matched? {
      i := 0;
    } else {
      var e := EdgeAt(data, cursor).value;
      i := ChosenEdgeMatches(data, e.next, remaining - 1, symbol, index);
      i := i + 1;
    }
  }

  lemma {:induction false} MatchingEdgeIsChosen(data: seq<byte>, cursor: nat, remaining: nat, symbol: seq<byte>, index: nat, i: nat)
    requires cursor <= |data| && index < |symbol| && i < remaining && EdgeNumber(data, cursor, i).Some?
    requires EdgeNumber(data, cursor, i).value.text <= symbol[index..]
    requires forall j :: 0 <= j < i ==> DiffersFrom(EdgeNumber(data, cursor, j), symbol[index])
    ensures var e := EdgeNumber(data, cursor, i).value;
            Choose(data, cursor, remaining, symbol, index) == Taken(e.child, index + |e.text|)
    decreases i
  {
    hide Compare, UlebAt, NulEnd, EdgeAt;
    CompareDecides(data, cursor, symbol, index);
    EdgeFromLabel(data, cursor);
    if i > 0 {
      assert DiffersFrom(EdgeNumber(data, cursor, 0), symbol[index]);
      var next := EdgeAt(data, cursor).value.next;
      forall j | 0 <= j < i - 1
        ensures DiffersFrom(EdgeNumber(data, next, j), symbol[index])
      {
        assert DiffersFrom(EdgeNumber(data, cursor, j + 1), symbol[index]);
      }
      MatchingEdgeIsChosen(data, next, remaining - 1, symbol, index, i - 1);
    }
  }

  predicate DiffersFrom(e: Option<Edge>, b: byte) {
    e.Some? ==> e.value.text != [] && e.value.text[0] != b
  }

  // ---- Soundness ----

  lemma FollowNowhere(data: seq<byte>, pos: nat)
    ensures Follow(data, pos, []) == Some(Place(pos, []))
  {
  }

  lemma FollowCons(data: seq<byte>, pos: nat, i: nat, path: seq<nat>)
    ensures Follow(data, pos, [i] + path) ==
            match ChildEdge(data, pos, i)
            case None => None
            case Some(e) =>
              match Follow(data, e.child, path)
              case None => None
              case Some(at) => Some(Place(at.pos, e.text + at.text))
  {
    hide HeaderAt, EdgeNumber;
    assert ([i] + path)[1..] == path;
  }

  lemma {:induction false} FollowSnoc(data: seq<byte>, pos: nat, path: seq<nat>, i: nat)
    requires Follow(data, pos, path).Some? && ChildEdge(data, Follow(data, pos, path).value.pos, i).Some?
    ensures var at := Follow(data, pos, path).value;
            var e := ChildEdge(data, at.pos, i).value;
            Follow(data, pos, path + [i]) == Some(Place(e.child, at.text + e.text))
    decreases |path|
  {
    hide HeaderAt, EdgeNumber, Follow;
    FollowNowhere(data, pos);
    if path == [] {
      var e := ChildEdge(data, pos, i).value;
      FollowNowhere(data, e.child);
      FollowCons(data, pos, i, []);
      assert path + [i] == [i] + [];
      assert e.text + [] == e.text && [] + e.text == e.text;
    } else {
      assert path == [path[0]] + path[1..];
      FollowCons(data, pos, path[0], path[1..]);
      var first := ChildEdge(data, pos, path[0]).value;
      FollowSnoc(data, first.child, path[1..], i);
      assert path + [i] == [path[0]] + (path[1..] + [i]);
      FollowCons(data, pos, path[0], path[1..] + [i]);
      var below := Follow(data, first.child, path[1..]).value;
      var e := ChildEdge(data, below.pos, i).value;
      assert first.text + (below.text + e.text) == (first.text + below.text) + e.text;
    }
  }

  /** Every state of the walk is a place in the trie spelled by the consumed part of the symbol. */
  lemma {:induction false} WalkFollowsPath(data: seq<byte>, symbol: seq<byte>, n: nat) returns (path: seq<nat>)
    requires Run(data, symbol, n).Go?
    ensures var s := Run(data, symbol, n);
            Follow(data, 0, path) == Some(Place(s.offset, symbol[..s.index]))
  {
    hide HeaderAt, Follow, Choose, EdgeNumber;
    if n == 0 {
      path := [];
      assert Follow(data, 0, []) == Some(Place(0, [])) by { FollowNowhere(data, 0); }
    } else {
      var prev := WalkFollowsPath(data, symbol, n - 1);
      var before, now := Run(data, symbol, n - 1), Run(data, symbol, n);
      var h := HeaderAt(data, before.offset).value;
      var i := ChosenEdgeMatches(data, h.children + 1, data[h.children], symbol, before.index);
      assert ChildEdge(data, before.offset, i) == EdgeNumber(data, h.children + 1, i);
      FollowSnoc(data, 0, prev, i);
      path := prev + [i];
      var e := ChildEdge(data, before.offset, i).value;
      assert e.text == symbol[before.index..][..|e.text|] == symbol[before.index..now.index];
      assert symbol[..before.index] + symbol[before.index..now.index] == symbol[..now.index];
    }
  }

  /** What the walk finds is exported under exactly that name; no assumption on the bytes. */
  lemma FoundIsExported(data: seq<byte>, symbol: seq<byte>, offset: nat)
    requires Ends(data, symbol, Found(offset))
    ensures exists path :: Exports(data, 0, path, offset, symbol)
  {
    hide HeaderAt, Follow, Choose;
    var n :| Run(data, symbol, n) == Stop(Found(offset));
    var m := LastStep(data, symbol, n);
    var path := WalkFollowsPath(data, symbol, m);
    assert symbol[..|symbol|] == symbol;
    assert Exports(data, 0, path, offset, symbol);
  }

  lemma {:induction false} LastStep(data: seq<byte>, symbol: seq<byte>, n: nat) returns (m: nat)
    requires Run(data, symbol, n).Stop?
    ensures Run(data, symbol, m).Go? && Run(data, symbol, m + 1) == Run(data, symbol, n)
  {
    hide WalkStep;
    if Run(data, symbol, n - 1).Go? {
      m := n - 1;
    } else {
      m := LastStep(data, symbol, n - 1);
    }
  }

  /** Soundness: on bytes ParseTrie accepts, whatever WalkTrie returns is in the list. */
  lemma FoundIsListed(data: seq<byte>, symbol: seq<byte>, offset: nat)
    requires Listing(data, 0, [], {}).Some? && Ends(data, symbol, Found(offset))
    ensures Node(offset, symbol) in Listing(data, 0, [], {}).value
  {
    FoundIsExported(data, symbol, offset);
    ListedIffExported(data, offset, symbol);
  }

  // ---- Completeness ----

  /** The edges of a node are told apart by their first bytes. */
  ghost predicate DistinctEdges(data: seq<byte>, pos: nat) {
    && (forall i :: ChildEdge(data, pos, i).Some? ==> ChildEdge(data, pos, i).value.text != [])
    && (forall i, j | i != j && ChildEdge(data, pos, i).Some? && ChildEdge(data, pos, i).value.text != [] ::
          DiffersFrom(ChildEdge(data, pos, j), ChildEdge(data, pos, i).value.text[0]))
  }

  /** Every node below pos has distinct edges. */
  ghost predicate Discriminating(data: seq<byte>, pos: nat) {
    forall path :: Follow(data, pos, path).Some? ==> DistinctEdges(data, Follow(data, pos, path).value.pos)
  }

  lemma DiscriminatingBelow(data: seq<byte>, pos: nat, i: nat)
    requires Discriminating(data, pos) && ChildEdge(data, pos, i).Some?
    ensures Discriminating(data, ChildEdge(data, pos, i).value.child)
  {
    hide Follow, ChildEdge, DistinctEdges;
    var child := ChildEdge(data, pos, i).value.child;
    forall path | Follow(data, child, path).Some?
      ensures DistinctEdges(data, Follow(data, child, path).value.pos)
    {
      FollowCons(data, pos, i, path);
      assert Follow(data, pos, [i] + path).Some?;
    }
  }

  /** A successful listing never comes back to an ancestor. */
  lemma {:induction false} NeverBackToAncestor(data: seq<byte>, pos: nat, name: seq<byte>, ancestors: set<nat>, path: seq<nat>)
    requires Listing(data, pos, name, ancestors).Some? && Follow(data, pos, path).Some?
    ensures Follow(data, pos, path).value.pos !in ancestors
    decreases |path|
  {
    hide HeaderAt, EdgeNumber, Children;
    if path != [] {
      var e := ChildEdge(data, pos, path[0]).value;
      var h := HeaderAt(data, pos).value;
      var sub := ChildListed(data, h.children + 1, data[h.children], name, ancestors + {pos}, path[0]);
      NeverBackToAncestor(data, e.child, sub, ancestors + {pos}, path[1..]);
    }
  }

  lemma {:induction false} ChildListed(data: seq<byte>, cursor: nat, count: nat, name: seq<byte>, ancestors: set<nat>, i: nat)
    returns (sub: seq<byte>)
    requires Children(data, cursor, count, name, ancestors).Some? && i < count
    ensures EdgeNumber(data, cursor, i).Some?
    ensures Listing(data, EdgeNumber(data, cursor, i).value.child, sub, ancestors).Some?
    decreases i
  {
    hide EdgeAt, Listing;
    var e := EdgeAt(data, cursor).value;
    if i == 0 {
      sub := name + e.text;
    } else {
      sub := ChildListed(data, e.next, count - 1, name, ancestors, i - 1);
    }
  }

  lemma {:induction false} FollowPrefix(data: seq<byte>, pos: nat, a: seq<nat>, b: seq<nat>)
    requires Follow(data, pos, a + b).Some?
    ensures Follow(data, pos, a).Some?
    ensures Follow(data, Follow(data, pos, a).value.pos, b).Some?
    ensures var mid := Follow(data, pos, a).value;
            var end := Follow(data, mid.pos, b).value;
            Follow(data, pos, a + b) == Some(Place(end.pos, mid.text + end.text))
    decreases |a|
  {
    hide HeaderAt, EdgeNumber;
    if a == [] {
      assert a + b == b;
      var end := Follow(data, pos, b).value;
      assert [] + end.text == end.text;
    } else {
      assert (a + b)[1..] == a[1..] + b;
      var e := ChildEdge(data, pos, a[0]).value;
      FollowPrefix(data, e.child, a[1..], b);
      var mid := Follow(data, e.child, a[1..]).value;
      var end := Follow(data, mid.pos, b).value;
      assert e.text + (mid.text + end.text) == (e.text + mid.text) + end.text;
    }
  }

  predicate AtPlace(s: Step, at: Place) {
    s.Go? && s.offset == at.pos && s.index == |at.text|
  }

  /** In a trie with distinct edges the walk retraces any path that spells the symbol. */
  lemma {:induction false} WalkRetracesPath(data: seq<byte>, symbol: seq<byte>, path: seq<nat>, k: nat)
    requires Listing(data, 0, [], {}).Some? && Discriminating(data, 0)
    requires Follow(data, 0, path).Some? && Follow(data, 0, path).value.text == symbol && k <= |path|
    ensures Follow(data, 0, path[..k]).Some?
    ensures var at := Follow(data, 0, path[..k]).value;
            at.text <= symbol && AtPlace(Run(data, symbol, k), at)
    decreases k
  {
    hide Follow, Listing, Discriminating, WalkStep;
    assert path[..k] + path[k..] == path;
    FollowPrefix(data, 0, path[..k], path[k..]);
    if k == 0 {
      assert path[..0] == [];
      FollowNowhere(data, 0);
    } else {
      WalkRetracesPath(data, symbol, path, k - 1);
      var at := Follow(data, 0, path[..k - 1]).value;
      assert path[..k] == path[..k - 1] + [path[k - 1]];
      FollowPrefix(data, 0, path[..k - 1], [path[k - 1]]);
      FollowCons(data, at.pos, path[k - 1], []);
      assert [path[k - 1]] + [] == [path[k - 1]];
      FollowNowhere(data, ChildEdge(data, at.pos, path[k - 1]).value.child);
      var e := ChildEdge(data, at.pos, path[k - 1]).value;
      assert e.text + [] == e.text;
      assert Follow(data, 0, path[..k]) == Some(Place(e.child, at.text + e.text));
      assert e.text <= symbol[|at.text|..];
      assert e.child != 0 by { ChildIsNotRoot(data, path[..k]); }
      assert DistinctEdges(data, at.pos) by { DistinctAt(data, path[..k - 1]); }
      StepAlongEdge(data, symbol, at.pos, |at.text|, path[k - 1]);
    }
  }

  lemma DistinctAt(data: seq<byte>, path: seq<nat>)
    requires Discriminating(data, 0) && Follow(data, 0, path).Some?
    ensures DistinctEdges(data, Follow(data, 0, path).value.pos)
  {
  }

  lemma ChildIsNotRoot(data: seq<byte>, path: seq<nat>)
    requires Listing(data, 0, [], {}).Some? && Follow(data, 0, path).Some? && path != []
    ensures Follow(data, 0, path).value.pos != 0
  {
    hide HeaderAt, EdgeNumber, Children;
    var e := ChildEdge(data, 0, path[0]).value;
    var h := HeaderAt(data, 0).value;
    var sub := ChildListed(data, h.children + 1, data[h.children], [], {} + {0}, path[0]);
    NeverBackToAncestor(data, e.child, sub, {} + {0}, path[1..]);
  }

  lemma StepAlongEdge(data: seq<byte>, symbol: seq<byte>, pos: nat, index: nat, i: nat)
    requires DistinctEdges(data, pos) && ChildEdge(data, pos, i).Some? && index <= |symbol|
    requires ChildEdge(data, pos, i).value.text <= symbol[index..] && ChildEdge(data, pos, i).value.child != 0
    ensures var e := ChildEdge(data, pos, i).value;
            WalkStep(data, symbol, pos, index) == Go(e.child, index + |e.text|)
  {
    hide HeaderAt, EdgeNumber, Choose;
    var h := HeaderAt(data, pos).value;
    var e := ChildEdge(data, pos, i).value;
    assert e.text[0] == symbol[index..][0] == symbol[index];
    var first := h.children + 1;
    forall j | 0 <= j < i
      ensures DiffersFrom(EdgeNumber(data, first, j), symbol[index])
    {
      assert ChildEdge(data, pos, j) == EdgeNumber(data, first, j);
    }
    MatchingEdgeIsChosen(data, first, data[h.children], symbol, index, i);
  }

  /** Completeness: in a parsed trie with distinct edges WalkTrie finds exactly the listed
      entries, each at its own offset. */
  lemma FoundIffListed(data: seq<byte>, symbol: seq<byte>, offset: nat)
    requires Listing(data, 0, [], {}).Some? && Discriminating(data, 0)
    ensures Ends(data, symbol, Found(offset)) <==> Node(offset, symbol) in Listing(data, 0, [], {}).value
  {
    hide Listing, Discriminating, Follow, Ends;
    if Ends(data, symbol, Found(offset)) {
      FoundIsListed(data, symbol, offset);
    }
    ListedIffExported(data, offset, symbol);
    if path :| Exports(data, 0, path, offset, symbol) {
      WalkRetracesPath(data, symbol, path, |path|);
      assert path[..|path|] == path;
      StopsAtTerminal(data, symbol, path, offset);
    }
  }

  lemma StopsAtTerminal(data: seq<byte>, symbol: seq<byte>, path: seq<nat>, offset: nat)
    requires Exports(data, 0, path, offset, symbol)
    requires AtPlace(Run(data, symbol, |path|), Follow(data, 0, path).value)
    ensures Ends(data, symbol, Found(offset))
  {
    hide Follow, HeaderAt;
    assert Run(data, symbol, |path| + 1) == Stop(Found(offset));
  }

  /** A name is spelled by at most one path. */
  lemma {:induction false} OnePathPerName(data: seq<byte>, pos: nat, p: seq<nat>, q: seq<nat>)
    requires Discriminating(data, pos) && Follow(data, pos, p).Some? && Follow(data, pos, q).Some?
    requires Follow(data, pos, p).value.text == Follow(data, pos, q).value.text
    ensures p == q
    decreases |p|
  {
    hide HeaderAt, EdgeNumber, Follow, Discriminating;
    assert DistinctEdges(data, pos) by {
      FollowNowhere(data, pos);
      DistinctHere(data, pos);
    }
    if p != [] {
      assert p == [p[0]] + p[1..];
      FollowCons(data, pos, p[0], p[1..]);
    }
    if q != [] {
      assert q == [q[0]] + q[1..];
      FollowCons(data, pos, q[0], q[1..]);
    }
    FollowNowhere(data, pos);
    if p != [] && q != [] {
      var e := ChildEdge(data, pos, p[0]).value;
      var f := ChildEdge(data, pos, q[0]).value;
      assert e.text[0] == Follow(data, pos, p).value.text[0] == f.text[0];
      assert p[0] == q[0];
      DiscriminatingBelow(data, pos, p[0]);
      var a, b := Follow(data, e.child, p[1..]).value, Follow(data, e.child, q[1..]).value;
      assert a.text == (e.text + a.text)[|e.text|..] == (e.text + b.text)[|e.text|..] == b.text;
      OnePathPerName(data, e.child, p[1..], q[1..]);
    }
  }

  lemma DistinctHere(data: seq<byte>, pos: nat)
    requires Discriminating(data, pos)
    ensures DistinctEdges(data, pos)
  {
    hide DistinctEdges;
    FollowNowhere(data, pos);
  }

  /** In a parsed trie with distinct edges each name is listed once. */
  lemma NamesListedOnce(data: seq<byte>, i: nat, j: nat)
    requires Listing(data, 0, [], {}).Some? && Discriminating(data, 0)
    requires i < j < |Listing(data, 0, [], {}).value|
    ensures Listing(data, 0, [], {}).value[i].name != Listing(data, 0, [], {}).value[j].name
  {
    hide Listing, Discriminating, Follow, HeaderAt;
    var out := Listing(data, 0, [], {}).value;
    var ps := ListingIsPreorder(data, 0, [], {});
    assert Lists(data, Follow(data, 0, ps[i]), [], out[i]) && Lists(data, Follow(data, 0, ps[j]), [], out[j]);
    if out[i].name == out[j].name {
      var a, b := Follow(data, 0, ps[i]).value.text, Follow(data, 0, ps[j]).value.text;
      assert [] + a == a && [] + b == b;
      OnePathPerName(data, 0, ps[i], ps[j]);
      NotLessThanItself(ps[i]);
    }
  }

  lemma {:induction false} NotLessThanItself(p: seq<nat>)
    ensures !PathLess(p, p)
  {
    if p != [] {
      NotLessThanItself(p[1..]);
    }
  }
}
