/** The byte layout of an export-trie node, shared by the listing parser and the
    single-symbol walk, and where a path of child numbers leads. */
module TrieFormat {
  import opened Basics
  import opened Leb128

  /** A node: its terminal payload and the offset of its child-count byte. */
  datatype Header = Header(terminalSize: u64, terminalOffset: nat, children: nat)

  datatype Edge = Edge(text: seq<byte>, child: u64, next: nat)

  function HeaderAt(data: seq<byte>, pos: nat): (h: Option<Header>)
    ensures h.Some? ==> pos < |data| && pos < h.value.terminalOffset <= h.value.children <= |data|
  {
    if pos >= |data| then None
    else
      match UlebAt(data, pos)
      case Value(size, next) => if size > |data| - next then None else Some(Header(size, next, next + size))
      case _ => None
  }

  function EdgeAt(data: seq<byte>, pos: nat): (e: Option<Edge>)
    ensures e.Some? ==> pos < e.value.next <= |data|
  {
    if pos > |data| then None
    else
      var end := NulEnd(data, pos);
      if end == |data| then None
      else
        match UlebAt(data, end + 1)
        case Value(child, next) => Some(Edge(data[pos..end], child, next))
        case _ => None
  }

  /** Reads the node header at pos, leaving the reader after the terminal size. */
  method ReadHeader(r: ByteReader, pos: u64) returns (h: Option<Header>)
    modifies r`pos
    ensures h == HeaderAt(r.data, pos)
    ensures h.Some? ==> r.pos == h.value.terminalOffset
  {
    if pos >= |r.data| {
      return None;
    }
    r.Seek(pos);
    var terminalSize := ReadUleb128(r);
    if !terminalSize.Value? {
      return None;
    }
    var terminalOffset := r.pos;
    if terminalSize.value > |r.data| - terminalOffset {
      return None;
    }
    h := Some(Header(terminalSize.value, terminalOffset, terminalOffset + terminalSize.value));
  }

  /** Reads an edge label up to its NUL; None when the data ends first. */
  method ReadLabel(r: ByteReader) returns (text: Option<seq<byte>>)
    requires r.pos <= |r.data|
    modifies r`pos
    ensures var end := NulEnd(r.data, old(r.pos));
            if end == |r.data| then text == None
            else text == Some(r.data[old(r.pos)..end]) && r.pos == end + 1
  {
    var tmp: seq<byte> := [];
    while true
      invariant old(r.pos) <= r.pos <= |r.data|
      invariant tmp == r.data[old(r.pos)..r.pos]
      invariant NulEnd(r.data, r.pos) == NulEnd(r.data, old(r.pos))
      decreases |r.data| - r.pos
    {
      var s := r.ReadByte();
      if s == None {
        return None;
      }
      if s.value == 0 {
        break;
      }
      tmp := tmp + [s.value];
    }
    text := Some(tmp);
  }

  /** Reads one child edge: its label and the offset of the child node. */
  method ReadEdge(r: ByteReader) returns (e: Option<Edge>)
    requires r.pos <= |r.data|
    modifies r`pos
    ensures e == EdgeAt(r.data, old(r.pos))
    ensures e.Some? ==> r.pos == e.value.next
  {
    var tmp := ReadLabel(r);
    if tmp == None {
      return None;
    }
    var child := ReadUleb128(r);
    if !child.Value? {
      return None;
    }
    e := Some(Edge(tmp.value, child.value, r.pos));
  }

  /** Child edge number i of the list of edges that starts at cursor. */
  function EdgeNumber(data: seq<byte>, cursor: nat, i: nat): Option<Edge>
    decreases i
  {
    match EdgeAt(data, cursor)
    case None => None
    case Some(e) => if i == 0 then Some(e) else EdgeNumber(data, e.next, i - 1)
  }

  function ChildEdge(data: seq<byte>, pos: nat, i: nat): Option<Edge> {
    match HeaderAt(data, pos)
    case None => None
    case Some(h) =>
      if h.children >= |data| || i >= data[h.children] then None else EdgeNumber(data, h.children + 1, i)
  }

  /** A place in the trie and the edge labels spelled out on the way to it. */
  datatype Place = Place(pos: nat, text: seq<byte>)

  /** Where a path of child numbers leads from the node at pos. */
  function Follow(data: seq<byte>, pos: nat, path: seq<nat>): Option<Place>
    decreases |path|, 1
  {
    if path == [] then Some(Place(pos, []))
    else
      match HeaderAt(data, pos)
      case None => None
      case Some(h) =>
        if h.children >= |data| then None
        else FollowEdges(data, h.children + 1, data[h.children], path)
  }

  function FollowEdges(data: seq<byte>, cursor: nat, count: nat, path: seq<nat>): Option<Place>
    requires path != []
    decreases |path|, 0
  {
    if path[0] >= count then None
    else
      match EdgeNumber(data, cursor, path[0])
      case None => None
      case Some(e) =>
        match Follow(data, e.child, path[1..])
        case None => None
        case Some(at) => Some(Place(at.pos, e.text + at.text))
  }

  /** The node at pos carries an export. */
  predicate Terminal(data: seq<byte>, pos: nat) {
    var h := HeaderAt(data, pos);
    h.Some? && h.value.terminalSize != 0
  }

  /** path leads from pos to a node with a terminal payload at offset, spelling label. */
  predicate Exports(data: seq<byte>, pos: nat, path: seq<nat>, offset: nat, text: seq<byte>) {
    var at := Follow(data, pos, path);
    && at.Some? && Terminal(data, at.value.pos)
    && HeaderAt(data, at.value.pos).value.terminalOffset == offset
    && at.value.text == text
  }

  /** Depth-first order of paths, a node before everything below it. */
  predicate PathLess(a: seq<nat>, b: seq<nat>) {
    b != [] && (a == [] || a[0] < b[0] || (a[0] == b[0] && PathLess(a[1..], b[1..])))
  }
}
