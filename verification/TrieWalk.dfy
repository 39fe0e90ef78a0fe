/** WalkTrie: the single-symbol search of pkg/trie/trie.go with Brent's cycle detection. */
module TrieWalk {
  import opened Basics
  import opened Leb128
  import opened TrieFormat

  datatype Outcome = Found(offset: nat) | Missing | Malformed
  datatype Step = Stop(outcome: Outcome) | Go(offset: u64, index: nat)
  datatype Result = Cycle | Done(outcome: Outcome)

  // ---- One step of the walk ----

  datatype Comparison = Matched(index: nat, next: nat) | Mismatched(next: nat) | Overrun

  /** Reads an edge label at cursor against the symbol from index on; once a character
      differs the rest of the label is only skipped. */
  function Compare(data: seq<byte>, cursor: nat, symbol: seq<byte>, index: nat, wrong: bool): (c: Comparison)
    requires cursor <= |data| && index <= |symbol|
    ensures c.Matched? ==> index <= c.index <= |symbol| && cursor <= c.next <= |data|
    ensures c.Mismatched? ==> cursor <= c.next <= |data|
    decreases |data| - cursor
  {
    if cursor == |data| then if wrong then Mismatched(cursor) else Matched(index, cursor)
    else if data[cursor] == 0 then if wrong then Mismatched(cursor + 1) else Matched(index, cursor + 1)
    else if wrong then Compare(data, cursor + 1, symbol, index, true)
    else if index == |symbol| then Overrun
    else Compare(data, cursor + 1, symbol, index + 1, data[cursor] != symbol[index])
  }

  datatype Choice = Taken(child: u64, index: nat) | NoEdge | Broken

  /** The first of the remaining edges whose label continues the symbol. */
  function Choose(data: seq<byte>, cursor: nat, remaining: nat, symbol: seq<byte>, index: nat): (c: Choice)
    requires cursor <= |data| && index <= |symbol|
    ensures c.Taken? ==> index <= c.index <= |symbol|
    decreases remaining
  {
    if remaining == 0 then NoEdge
    else
      match Compare(data, cursor, symbol, index, false)
      case Overrun => NoEdge
      case Mismatched(next) => (
        match UlebAt(data, next)
        case Value(_, after) => Choose(data, after, remaining - 1, symbol, index)
        case _ => Broken)
      case Matched(i, next) =>
        match UlebAt(data, next)
        case Value(child, _) => Taken(child, i)
        case _ => Broken
  }

  function WalkStep(data: seq<byte>, symbol: seq<byte>, offset: nat, index: nat): (s: Step)
    requires index <= |symbol|
    ensures s.Go? ==> index <= s.index <= |symbol| && offset < |data|
  {
    match HeaderAt(data, offset)
    case None => Stop(Malformed)
    case Some(h) =>
      if index == |symbol| && h.terminalSize != 0 then Stop(Found(h.terminalOffset))
      else if h.children >= |data| then Stop(Missing)
      else
        match Choose(data, h.children + 1, data[h.children], symbol, index)
        case Taken(child, i) => if child != 0 then Go(child, i) else Stop(Missing)
        case NoEdge => Stop(Missing)
        case Broken => Stop(Malformed)
  }

  method CompareLabel(r: ByteReader, symbol: seq<byte>, strIndex: nat) returns (c: Comparison)
    requires r.pos <= |r.data| && strIndex <= |symbol|
    modifies r`pos
    ensures c == Compare(r.data, old(r.pos), symbol, strIndex, false)
    ensures !c.Overrun? ==> r.pos == c.next
  {
    var searchStrIndex: nat, wrongEdge := strIndex, false;
    while true
      invariant r.pos <= |r.data| && searchStrIndex <= |symbol|
      invariant Compare(r.data, r.pos, symbol, searchStrIndex, wrongEdge) == Compare(r.data, old(r.pos), symbol, strIndex, false)
      decreases |r.data| - r.pos
    {
      var ch := r.ReadByte();
      if ch == None || ch.value == 0 {
        break;
      }
      if !wrongEdge {
        if searchStrIndex != |symbol| && ch.value != symbol[searchStrIndex] {
          wrongEdge := true;
        }
        searchStrIndex := searchStrIndex + 1;
        if searchStrIndex > |symbol| {
          return Overrun;
        }
      }
    }
    c := if wrongEdge then Mismatched(r.pos) else Matched(searchStrIndex, r.pos);
  }

  method FindEdge(r: ByteReader, childrenRemaining: nat, symbol: seq<byte>, strIndex: nat) returns (c: Choice)
    requires r.pos <= |r.data| && strIndex <= |symbol|
    modifies r`pos
    ensures c == Choose(r.data, old(r.pos), childrenRemaining, symbol, strIndex)
  {
    hide Compare, UlebFrom;
    var i := childrenRemaining;
    while i > 0
      invariant r.pos <= |r.data|
      invariant Choose(r.data, r.pos, i, symbol, strIndex) == Choose(r.data, old(r.pos), childrenRemaining, symbol, strIndex)
    {
      var compared := CompareLabel(r, symbol, strIndex);
      if compared.Overrun? {
        return NoEdge;
      }
      var child := ReadUleb128(r);
      if !child.Value? {
        return Broken;
      }
      if compared.Matched? {
        return Taken(child.value, compared.index);
      }
      i := i - 1;
    }
    c := NoEdge;
  }

  /** The part of the loop body that looks at one node. */
  method VisitNode(r: ByteReader, symbol: seq<byte>, offset: u64, strIndex: nat) returns (s: Step)
    requires strIndex <= |symbol|
    modifies r`pos
    ensures s == WalkStep(r.data, symbol, offset, strIndex)
    ensures s.Stop? && s.outcome.Found? ==> r.pos == s.outcome.offset
  {
    hide Choose, HeaderAt;
    var h := ReadHeader(r, offset);
    if h == None {
      return Stop(Malformed);
    }
    if strIndex == |symbol| && h.value.terminalSize != 0 {
      return Stop(Found(h.value.terminalOffset));
    }
    r.Seek(h.value.children);
    var childrenRemaining := r.ReadByte();
    if childrenRemaining == None {
      return Stop(Missing);
    }
    var c := FindEdge(r, childrenRemaining.value, symbol, strIndex);
    match c
    case Taken(child, i) => s := if child != 0 then Go(child, i) else Stop(Missing);
    case NoEdge => s := Stop(Missing);
    case Broken => s := Stop(Malformed);
  }

  // ---- The walk without the detector ----

  ghost function Run(data: seq<byte>, symbol: seq<byte>, n: nat): (s: Step)
    ensures s.Go? ==> s.index <= |symbol|
  {
    if n == 0 then Go(0, 0)
    else
      match Run(data, symbol, n - 1)
      case Stop(o) => Stop(o)
      case Go(offset, index) => WalkStep(data, symbol, offset, index)
  }

  ghost predicate Ends(data: seq<byte>, symbol: seq<byte>, outcome: Outcome) {
    exists n :: Run(data, symbol, n) == Stop(outcome)
  }

  ghost predicate RunsForever(data: seq<byte>, symbol: seq<byte>) {
    forall n :: Run(data, symbol, n).Go?
  }

  lemma {:induction false} StopPersists(data: seq<byte>, symbol: seq<byte>, m: nat, n: nat)
    requires m <= n && Run(data, symbol, m).Stop?
    ensures Run(data, symbol, n) == Run(data, symbol, m)
    decreases n
  {
    if m < n {
      StopPersists(data, symbol, m, n - 1);
    }
  }

  /** The walk ends in at most one way. */
  lemma EndsOnce(data: seq<byte>, symbol: seq<byte>, a: Outcome, b: Outcome)
    requires Ends(data, symbol, a) && Ends(data, symbol, b)
    ensures a == b
  {
    var m :| Run(data, symbol, m) == Stop(a);
    var n :| Run(data, symbol, n) == Stop(b);
    if m <= n {
      StopPersists(data, symbol, m, n);
    } else {
      StopPersists(data, symbol, n, m);
    }
  }

  lemma {:induction false} SameStateSameFuture(data: seq<byte>, symbol: seq<byte>, i: nat, j: nat, k: nat)
    requires Run(data, symbol, i) == Run(data, symbol, j)
    ensures Run(data, symbol, i + k) == Run(data, symbol, j + k)
  {
    hide Run, WalkStep;
    if k > 0 {
      SameStateSameFuture(data, symbol, i, j, k - 1);
      RunStep(data, symbol, i + k);
      RunStep(data, symbol, j + k);
    }
  }

  lemma RunStep(data: seq<byte>, symbol: seq<byte>, n: nat)
    requires n > 0
    ensures Run(data, symbol, n) ==
            match Run(data, symbol, n - 1)
            case Stop(o) => Stop(o)
            case Go(offset, index) => WalkStep(data, symbol, offset, index)
  {
    hide WalkStep;
  }

  lemma {:induction false} NeverStops(data: seq<byte>, symbol: seq<byte>, i: nat, j: nat, n: nat)
    requires i < j && Run(data, symbol, i).Go? && Run(data, symbol, i) == Run(data, symbol, j)
    ensures Run(data, symbol, n).Go?
    decreases n
  {
    hide WalkStep, Run;
    if n < j {
      if Run(data, symbol, n).Stop? {
        StopPersists(data, symbol, n, j);
      }
    } else {
      SameStateSameFuture(data, symbol, i, j, n - j);
      NeverStops(data, symbol, i, j, n - (j - i));
    }
  }

  /** A state seen twice is seen for ever. */
  lemma RepeatRunsForever(data: seq<byte>, symbol: seq<byte>, i: nat, j: nat)
    requires i < j && Run(data, symbol, i).Go? && Run(data, symbol, i) == Run(data, symbol, j)
    ensures RunsForever(data, symbol)
  {
    forall n: nat
      ensures Run(data, symbol, n).Go?
    {
      NeverStops(data, symbol, i, j, n);
    }
  }

  // ---- Brent's algorithm ----

  /** trace holds the node offsets visited since the symbol index reached index, the
      last of them not yet looked at. */
  ghost predicate IsTrace(data: seq<byte>, symbol: seq<byte>, index: nat, trace: seq<u64>) {
    && index <= |symbol|
    && forall k :: 0 <= k < |trace| - 1 ==> StepsTo(data, symbol, index, trace[k], trace[k + 1])
  }

  ghost predicate StepsTo(data: seq<byte>, symbol: seq<byte>, index: nat, a: nat, b: nat)
    requires index <= |symbol|
  {
    var s := WalkStep(data, symbol, a, index);
    s.Go? && s.offset == b && s.index == index
  }

  lemma {:induction false} TraceRepeats(data: seq<byte>, symbol: seq<byte>, index: nat, trace: seq<u64>, i: nat, d: nat, k: nat)
    requires IsTrace(data, symbol, index, trace)
    requires d > 0 && i + d < |trace| && trace[i] == trace[i + d] && i <= k && k + d < |trace|
    ensures trace[k] == trace[k + d]
  {
    if i < k {
      TraceRepeats(data, symbol, index, trace, i, d, k - 1);
      assert StepsTo(data, symbol, index, trace[k - 1], trace[k - 1 + 1]);
      assert StepsTo(data, symbol, index, trace[k - 1 + d], trace[k - 1 + d + 1]);
    }
  }

  /** An anchor that survives power comparisons bounds the power by the number of nodes:
      among anchor + 1 offsets below |data| one would repeat within that many steps. */
  lemma AnchorSurvivesOnlyBriefly(data: seq<byte>, symbol: seq<byte>, index: nat, trace: seq<u64>, power: nat)
    requires IsTrace(data, symbol, index, trace) && power > 0 && |trace| == 2 * power
    requires forall k :: power - 1 < k < |trace| ==> trace[k] != trace[power - 1]
    ensures power <= |data|
  {
    if power > |data| {
      var visited := trace[..power];
      forall k | 0 <= k < power
        ensures visited[k] < |data|
      {
        assert StepsTo(data, symbol, index, trace[k], trace[k + 1]);
      }
      PigeonholeEarly(visited, |data|);
      var i, j :| 0 <= i < j <= |data| && visited[i] == visited[j];
      TraceRepeats(data, symbol, index, trace, i, j - i, power - 1);
    }
  }

  lemma PigeonholeEarly(visited: seq<u64>, n: nat)
    requires |visited| > n && forall k :: 0 <= k < |visited| ==> visited[k] < n
    ensures exists i, j :: 0 <= i < j <= n && visited[i] == visited[j]
  {
    Pigeonhole(visited[..n + 1], n);
  }

  /** WalkTrie terminates on every byte string and every symbol. It reports a cycle exactly
      when the walk without the detector would never end, and otherwise gives that walk's
      own outcome, with the reader at the payload when the symbol was found. */
  method WalkTrie(r: ByteReader, symbol: seq<byte>) returns (result: Result)
    modifies r`pos
    ensures result.Cycle? <==> RunsForever(r.data, symbol)
    ensures result.Done? ==> Ends(r.data, symbol, result.outcome)
    ensures result.Done? && result.outcome.Found? ==> r.pos == result.outcome.offset
  {
    hide WalkStep;
    var strIndex: nat, offset: u64 := 0, 0;
    var cycleIndex: int, cycleAnchor: u64, cycleSteps: nat, cyclePower: nat := -1, 0, 0, 0;
    ghost var t: nat := 0;
    ghost var trace: seq<u64> := [0];
    while true
      invariant strIndex <= |symbol| && Run(r.data, symbol, t) == Go(offset, strIndex)
      invariant IsTrace(r.data, symbol, strIndex, trace) && 0 < |trace| <= t + 1
      invariant forall k :: 0 <= k < |trace| ==> Run(r.data, symbol, t + 1 - |trace| + k) == Go(trace[k], strIndex)
      invariant strIndex != cycleIndex ==> |trace| == 1
      invariant strIndex == cycleIndex ==>
          && 0 <= cycleSteps < cyclePower <= 2 * |r.data| + 2
          && |trace| == cyclePower + cycleSteps + 1
          && trace[cyclePower - 1] == cycleAnchor
          && forall k :: cyclePower - 1 < k < |trace| - 1 ==> trace[k] != cycleAnchor
      decreases |symbol| - strIndex,
                2 * |r.data| + 3 - (if strIndex == cycleIndex then cyclePower else 0),
                if strIndex == cycleIndex then cyclePower - cycleSteps else 0
    {
      if strIndex != cycleIndex {
        cycleIndex, cycleAnchor, cycleSteps, cyclePower := strIndex, offset, 0, 1;
      } else {
        if offset == cycleAnchor {
          RepeatRunsForever(r.data, symbol, t + 1 - |trace| + (cyclePower - 1), t);
          return Cycle;
        }
        cycleSteps := cycleSteps + 1;
        if cycleSteps == cyclePower {
          AnchorSurvivesOnlyBriefly(r.data, symbol, strIndex, trace, cyclePower);
          cycleAnchor, cycleSteps, cyclePower := offset, 0, cyclePower * 2;
        }
      }
      var s := VisitNode(r, symbol, offset, strIndex);
      assert Run(r.data, symbol, t + 1) == s;
      if s.Stop? {
        return Done(s.outcome);
      }
      t := t + 1;
      if s.index == strIndex {
        trace := trace + [s.offset];
      } else {
        trace := [s.offset];
      }
      offset, strIndex := s.offset, s.index;
    }
  }
}
