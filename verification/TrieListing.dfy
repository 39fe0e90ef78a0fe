/** ParseTrie: the exhaustive recursive walk of pkg/trie/trie.go. */
module TrieListing {
  import opened Basics
  import opened Leb128
  import opened TrieFormat

  datatype Node = Node(offset: nat, name: seq<byte>)

  /** The node offsets that can still join the ancestors. */
  ghost function Positions(size: nat): (s: set<nat>)
    ensures forall i: nat :: i in s <==> i < size
  {
    if size == 0 then {} else Positions(size - 1) + {size - 1}
  }

  /** What the walk yields at pos, or None when it fails. */
  ghost function Listing(data: seq<byte>, pos: nat, name: seq<byte>, ancestors: set<nat>): Option<seq<Node>>
    decreases Positions(|data|) - ancestors, 0
  {
    if pos >= |data| || pos in ancestors then None
    else
      assert pos in Positions(|data|) - ancestors;
      NodeListing(data, pos, name, ancestors + {pos})
  }

  /** The same once pos counts as an ancestor. */
  ghost function NodeListing(data: seq<byte>, pos: nat, name: seq<byte>, ancestors: set<nat>): Option<seq<Node>>
    decreases Positions(|data|) - ancestors, 256
  {
    match HeaderAt(data, pos)
    case None => None
    case Some(h) =>
      if h.children >= |data| then None
      else
        Prepend(if h.terminalSize != 0 then [Node(h.terminalOffset, name)] else [],
                Children(data, h.children + 1, data[h.children], name, ancestors))
  }

  ghost function Children(data: seq<byte>, cursor: nat, remaining: nat, name: seq<byte>, ancestors: set<nat>): Option<seq<Node>>
    decreases Positions(|data|) - ancestors, remaining
  {
    if remaining == 0 then Some([])
    else
      match EdgeAt(data, cursor)
      case None => None
      case Some(e) =>
        match Listing(data, e.child, name + e.text, ancestors)
        case None => None
        case Some(below) => Prepend(below, Children(data, e.next, remaining - 1, name, ancestors))
  }

  ghost function Prepend(front: seq<Node>, rest: Option<seq<Node>>): Option<seq<Node>> {
    match rest
    case None => None
    case Some(nodes) => Some(front + nodes)
  }

  /** The set of node offsets on the way from the root to the current node. */
  class Ancestors {
    var positions: set<nat>

    constructor ()
      ensures positions == {}
    {
      positions := {};
    }
  }

  /** append(slice, tail...) on the slice backing[..len]: in place when the capacity
      allows, which overwrites whatever an earlier sibling left behind len. */
  method AppendShared(backing: array<byte>, len: nat, tail: seq<byte>) returns (b: array<byte>, n: nat)
    requires len <= backing.Length
    modifies backing
    ensures n == len + |tail| <= b.Length
    ensures b == backing || fresh(b)
    ensures backing[..len] == old(backing[..len])
    ensures b[..n] == old(backing[..len]) + tail
  {
    n := len + |tail|;
    if n <= backing.Length {
      b := backing;
    } else {
      b := new byte[2 * n](i => 0);
      forall i | 0 <= i < len {
        b[i] := backing[i];
      }
    }
    assert b[..len] == old(backing[..len]);
    forall i | 0 <= i < |tail| {
      b[len + i] := tail[i];
    }
    assert b[len..n] == tail;
    assert b[..n] == b[..len] + b[len..n];
  }

  /** parseTrie on the shared buffer backing[..len]: it terminates on any bytes, leaves
      the ancestor set and the caller's part of the buffer as they were, and lists exactly
      what the walk over the immutable name does. */
  method ParseNode(r: ByteReader, pos: u64, backing: array<byte>, len: nat, ancestors: Ancestors)
    returns (out: Option<seq<Node>>)
    requires len <= backing.Length
    modifies r`pos, backing, ancestors
    ensures ancestors.positions == old(ancestors.positions)
    ensures backing[..len] == old(backing[..len])
    ensures out == Listing(r.data, pos, old(backing[..len]), old(ancestors.positions))
    decreases Positions(|r.data|) - ancestors.positions, 0
  {
    if pos >= |r.data| {
      return None;
    }
    if pos in ancestors.positions {
      return None;
    }
    assert pos in Positions(|r.data|) - ancestors.positions;
    ancestors.positions := ancestors.positions + {pos};
    out := ParseMarkedNode(r, pos, backing, len, ancestors);
    ancestors.positions := ancestors.positions - {pos};
  }

  /** The body of parseTrie between marking pos as an ancestor and unmarking it. */
  method ParseMarkedNode(r: ByteReader, pos: u64, backing: array<byte>, len: nat, ancestors: Ancestors)
    returns (out: Option<seq<Node>>)
    requires len <= backing.Length && pos < |r.data| && pos in ancestors.positions
    modifies r`pos, backing, ancestors
    ensures ancestors.positions == old(ancestors.positions)
    ensures backing[..len] == old(backing[..len])
    ensures out == NodeListing(r.data, pos, old(backing[..len]), old(ancestors.positions))
    decreases Positions(|r.data|) - ancestors.positions, 2
  {
    hide Positions, Listing, HeaderAt, EdgeAt;
    ghost var name := backing[..len];
    var h := ReadHeader(r, pos);
    if h == None {
      return None;
    }
    var output: seq<Node> := [];
    if h.value.terminalSize != 0 {
      output := [Node(h.value.terminalOffset, backing[..len])];
    }
    r.Seek(h.value.children);
    var childrenRemaining := r.ReadByte();
    if childrenRemaining == None {
      return None;
    }
    ghost var listing := NodeListing(r.data, pos, name, ancestors.positions);
    for i := 0 to childrenRemaining.value
      invariant r.pos <= |r.data|
      invariant ancestors.positions == old(ancestors.positions) && backing[..len] == name
      invariant listing == Prepend(output, Children(r.data, r.pos, childrenRemaining.value - i, name, ancestors.positions))
    {
      var nodes, curr := ParseChild(r, backing, len, ancestors);
      if nodes == None {
        return None;
      }
      r.Seek(curr);
      ghost var rest := Children(r.data, curr, childrenRemaining.value - i - 1, name, ancestors.positions);
      PrependTwice(output, nodes.value, rest);
      output := output + nodes.value;
    }
    assert output + [] == output;
    out := Some(output);
  }

  /** One round of the child loop: an edge, then the subtree below it. */
  method ParseChild(r: ByteReader, backing: array<byte>, len: nat, ancestors: Ancestors)
    returns (nodes: Option<seq<Node>>, curr: nat)
    requires len <= backing.Length && r.pos <= |r.data|
    modifies r`pos, backing, ancestors
    ensures ancestors.positions == old(ancestors.positions)
    ensures backing[..len] == old(backing[..len])
    ensures var e := EdgeAt(r.data, old(r.pos));
            match e
            case None => nodes == None
            case Some(edge) =>
              && curr == edge.next
              && nodes == Listing(r.data, edge.child, old(backing[..len]) + edge.text, old(ancestors.positions))
    decreases Positions(|r.data|) - ancestors.positions, 1
  {
    hide Positions, Listing;
    var e := ReadEdge(r);
    if e == None {
      return None, 0;
    }
    curr := r.pos;
    var longer, longerLen := AppendShared(backing, len, e.value.text);
    nodes := ParseNode(r, e.value.child, longer, longerLen, ancestors);
    assert longer == backing ==> backing[..len] == backing[..longerLen][..len];
  }

  lemma PrependTwice(a: seq<Node>, b: seq<Node>, rest: Option<seq<Node>>)
    ensures Prepend(a, Prepend(b, rest)) == Prepend(a + b, rest)
  {
    if rest.Some? {
      assert a + (b + rest.value) == a + b + rest.value;
    }
  }

  method ParseTrie(r: ByteReader) returns (out: Option<seq<Node>>)
    modifies r`pos
    ensures out == Listing(r.data, 0, [], {})
  {
    var data := new byte[32768](i => 0);
    var ancestors := new Ancestors();
    assert data[..0] == [];
    out := ParseNode(r, 0, data, 0, ancestors);
  }

  // ---- The listing is the preorder of the terminal nodes ----

  /** ps are exactly the paths from pos to terminal nodes, in depth-first order, and out
      lists each one's payload offset and name. */
  ghost predicate IsPreorder(data: seq<byte>, pos: nat, name: seq<byte>, out: seq<Node>, ps: seq<seq<nat>>) {
    && |ps| == |out|
    && Ordered(ps)
    && (forall i :: 0 <= i < |ps| ==> Lists(data, Follow(data, pos, ps[i]), name, out[i]))
    && (forall path :: TerminalAt(data, Follow(data, pos, path)) ==> path in ps)
  }

  ghost predicate IsPreorderOfEdges(data: seq<byte>, cursor: nat, count: nat, name: seq<byte>, out: seq<Node>, ps: seq<seq<nat>>) {
    && |ps| == |out|
    && Ordered(ps)
    && (forall i :: 0 <= i < |ps| ==> ps[i] != [])
    && (forall i :: 0 <= i < |ps| && ps[i] != [] ==> Lists(data, FollowEdges(data, cursor, count, ps[i]), name, out[i]))
    && (forall path :: path != [] && TerminalAt(data, FollowEdges(data, cursor, count, path)) ==> path in ps)
  }

  ghost predicate Ordered(ps: seq<seq<nat>>) {
    forall i, j :: 0 <= i < j < |ps| ==> PathLess(ps[i], ps[j])
  }

  predicate TerminalAt(data: seq<byte>, at: Option<Place>) {
    at.Some? && Terminal(data, at.value.pos)
  }

  predicate Lists(data: seq<byte>, at: Option<Place>, name: seq<byte>, node: Node) {
    && TerminalAt(data, at)
    && node == Node(HeaderAt(data, at.value.pos).value.terminalOffset, name + at.value.text)
  }

  /** A successful listing is the preorder of the terminal nodes, each named by the
      concatenation of the labels on its path. */
  lemma {:induction false} ListingIsPreorder(data: seq<byte>, pos: nat, name: seq<byte>, ancestors: set<nat>) returns (ps: seq<seq<nat>>)
    requires Listing(data, pos, name, ancestors).Some?
    ensures IsPreorder(data, pos, name, Listing(data, pos, name, ancestors).value, ps)
    decreases Positions(|data|) - ancestors, 0
  {
    hide Children, HeaderAt, IsPreorder, IsPreorderOfEdges;
    assert pos in Positions(|data|) - ancestors;
    var h := HeaderAt(data, pos).value;
    var rest := Children(data, h.children + 1, data[h.children], name, ancestors + {pos}).value;
    var below := EdgesArePreorder(data, h.children + 1, data[h.children], name, ancestors + {pos});
    NodeIsPreorder(data, pos, name, rest, below);
    ps := if h.terminalSize != 0 then [[]] + below else below;
    assert [] + rest == rest;
  }

  /** The node itself, if it is terminal, comes before everything below it. */
  lemma NodeIsPreorder(data: seq<byte>, pos: nat, name: seq<byte>, rest: seq<Node>, below: seq<seq<nat>>)
    requires HeaderAt(data, pos).Some? && HeaderAt(data, pos).value.children < |data|
    requires var h := HeaderAt(data, pos).value;
             IsPreorderOfEdges(data, h.children + 1, data[h.children], name, rest, below)
    ensures var h := HeaderAt(data, pos).value;
            if h.terminalSize != 0 then IsPreorder(data, pos, name, [Node(h.terminalOffset, name)] + rest, [[]] + below)
            else IsPreorder(data, pos, name, rest, below)
  {
    hide HeaderAt, FollowEdges, PathLess, Ordered;
    NodeFirst(below);
    assert name + [] == name;
    if HeaderAt(data, pos).value.terminalSize == 0 {
      assert !TerminalAt(data, Follow(data, pos, []));
    }
  }

  lemma NodeFirst(below: seq<seq<nat>>)
    ensures Ordered(below) && (forall i :: 0 <= i < |below| ==> below[i] != []) ==> Ordered([[]] + below)
  {
  }

  function Down(path: seq<nat>): seq<nat> { [0] + path }

  function Past(path: seq<nat>): seq<nat>
    requires path != []
  {
    [path[0] + 1] + path[1..]
  }

  /** The paths of a child list: those through edge 0, then those of the later edges. */
  ghost predicate Joins(first: seq<seq<nat>>, later: seq<seq<nat>>, ps: seq<seq<nat>>) {
    && |ps| == |first| + |later|
    && (forall i :: 0 <= i < |first| ==> ps[i] == Down(first[i]))
    && (forall i :: 0 <= i < |later| ==> later[i] != [] && ps[|first| + i] == Past(later[i]))
  }

  lemma {:induction false} EdgesArePreorder(data: seq<byte>, cursor: nat, count: nat, name: seq<byte>, ancestors: set<nat>) returns (ps: seq<seq<nat>>)
    requires Children(data, cursor, count, name, ancestors).Some?
    ensures IsPreorderOfEdges(data, cursor, count, name, Children(data, cursor, count, name, ancestors).value, ps)
    decreases Positions(|data|) - ancestors, count
  {
    hide EdgeAt, Follow, Listing, IsPreorder, Past, Down, PathLess;
    if count == 0 {
      return [];
    }
    hide FollowEdges;
    var e := EdgeAt(data, cursor).value;
    var below := Listing(data, e.child, name + e.text, ancestors).value;
    var rest := Children(data, e.next, count - 1, name, ancestors).value;
    var first := ListingIsPreorder(data, e.child, name + e.text, ancestors);
    var later := EdgesArePreorder(data, e.next, count - 1, name, ancestors);
    ps := seq(|first|, i requires 0 <= i < |first| => Down(first[i]))
          + seq(|later|, i requires 0 <= i < |later| && later[i] != [] => Past(later[i]));
    PreorderJoins(data, cursor, count, name, below, rest, first, later, ps);
  }

  lemma PreorderJoins(data: seq<byte>, cursor: nat, count: nat, name: seq<byte>, below: seq<Node>, rest: seq<Node>,
                      first: seq<seq<nat>>, later: seq<seq<nat>>, ps: seq<seq<nat>>)
    requires count > 0 && EdgeAt(data, cursor).Some?
    requires IsPreorder(data, EdgeAt(data, cursor).value.child, name + EdgeAt(data, cursor).value.text, below, first)
    requires IsPreorderOfEdges(data, EdgeAt(data, cursor).value.next, count - 1, name, rest, later)
    requires Joins(first, later, ps)
    ensures IsPreorderOfEdges(data, cursor, count, name, below + rest, ps)
  {
    hide EdgeAt, Follow, FollowEdges, Lists, PathLess, Past, Down, Ordered;
    assert Ordered(ps) by { OrderJoins(first, later, ps); }
    forall i | 0 <= i < |ps|
      ensures ps[i] != []
      ensures ps[i] != [] ==> Lists(data, FollowEdges(data, cursor, count, ps[i]), name, (below + rest)[i])
    {
      if i < |first| {
        ListsDown(data, cursor, count, name, first[i], below[i]);
      } else {
        PastFirst(data, cursor, count, later[i - |first|]);
        assert ps[|first| + (i - |first|)] == Past(later[i - |first|]);
      }
    }
    forall path | path != [] && TerminalAt(data, FollowEdges(data, cursor, count, path))
      ensures path in ps
    {
      if path[0] == 0 {
        DownFirst(data, cursor, count, path[1..]);
        Unfirst(path);
        var i :| 0 <= i < |first| && first[i] == path[1..];
        assert path == ps[i];
      } else {
        var back := [path[0] - 1] + path[1..];
        Unpast(path);
        PastFirst(data, cursor, count, back);
        var i :| 0 <= i < |later| && later[i] == back;
        assert path == ps[|first| + i];
      }
    }
  }

  lemma OrderJoins(first: seq<seq<nat>>, later: seq<seq<nat>>, ps: seq<seq<nat>>)
    requires Joins(first, later, ps) && Ordered(first) && Ordered(later)
    ensures Ordered(ps)
  {
    forall i, j | 0 <= i < j < |ps|
      ensures PathLess(ps[i], ps[j])
    {
      if j < |first| {
        assert Down(first[i])[1..] == first[i] && Down(first[j])[1..] == first[j];
      } else if i < |first| {
        assert ps[|first| + (j - |first|)] == Past(later[j - |first|]);
      } else {
        var a, b := later[i - |first|], later[j - |first|];
        assert ps[|first| + (i - |first|)] == Past(a) && ps[|first| + (j - |first|)] == Past(b);
        assert Past(a)[1..] == a[1..] && Past(b)[1..] == b[1..];
      }
    }
  }

  lemma Unfirst(path: seq<nat>)
    requires path != [] && path[0] == 0
    ensures path == Down(path[1..])
  {
  }

  lemma Unpast(path: seq<nat>)
    requires path != [] && path[0] > 0
    ensures path == Past([path[0] - 1] + path[1..])
  {
    var back := [path[0] - 1] + path[1..];
    assert back[1..] == path[1..];
  }

  /** A path through edge 0 continues from that edge's child. */
  lemma DownFirst(data: seq<byte>, cursor: nat, count: nat, path: seq<nat>)
    requires count > 0 && EdgeAt(data, cursor).Some?
    ensures Down(path) != []
    ensures var e := EdgeAt(data, cursor).value;
            FollowEdges(data, cursor, count, Down(path)) == match Follow(data, e.child, path)
            case None => None
            case Some(at) => Some(Place(at.pos, e.text + at.text))
  {
    assert Down(path)[1..] == path;
  }

  lemma ListsDown(data: seq<byte>, cursor: nat, count: nat, name: seq<byte>, path: seq<nat>, node: Node)
    requires count > 0 && EdgeAt(data, cursor).Some?
    requires Lists(data, Follow(data, EdgeAt(data, cursor).value.child, path), name + EdgeAt(data, cursor).value.text, node)
    ensures Down(path) != [] && Lists(data, FollowEdges(data, cursor, count, Down(path)), name, node)
  {
    hide EdgeAt, Follow, FollowEdges, HeaderAt;
    DownFirst(data, cursor, count, path);
    var e := EdgeAt(data, cursor).value;
    var at := Follow(data, e.child, path).value;
    assert (name + e.text) + at.text == name + (e.text + at.text);
  }

  /** A path that skips edge 0 is a path over the remaining edges, renumbered. */
  lemma PastFirst(data: seq<byte>, cursor: nat, count: nat, path: seq<nat>)
    requires count > 0 && EdgeAt(data, cursor).Some? && path != []
    ensures Past(path) != []
    ensures FollowEdges(data, cursor, count, Past(path))
            == FollowEdges(data, EdgeAt(data, cursor).value.next, count - 1, path)
  {
    hide EdgeAt, Follow;
    assert Past(path)[1..] == path[1..];
  }

  /** ParseTrie lists (offset, name) exactly when some path spells name and ends at a
      terminal node whose payload is at offset. */
  lemma ListedIffExported(data: seq<byte>, offset: nat, name: seq<byte>)
    requires Listing(data, 0, [], {}).Some?
    ensures Node(offset, name) in Listing(data, 0, [], {}).value <==> exists path :: Exports(data, 0, path, offset, name)
  {
    hide Listing, Follow, HeaderAt, Ordered;
    var out := Listing(data, 0, [], {}).value;
    var ps := ListingIsPreorder(data, 0, [], {});
    if Node(offset, name) in out {
      var i :| 0 <= i < |out| && out[i] == Node(offset, name);
      assert Lists(data, Follow(data, 0, ps[i]), [], out[i]);
      assert Exports(data, 0, ps[i], offset, name);
    }
    if path :| Exports(data, 0, path, offset, name) {
      assert TerminalAt(data, Follow(data, 0, path));
      var i :| 0 <= i < |ps| && ps[i] == path;
      assert Lists(data, Follow(data, 0, path), [], out[i]);
      assert [] + name == name;
    }
  }
}
