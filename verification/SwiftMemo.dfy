/** swift_ctxmemo.go: getContextDesc answers repeated top-level lookups from a memo that lives
    while a parsing call is open. Every answer, and every position a cursor is left at, is the
    one getContextDescUncached gives, also when calls interleave. */
module SwiftMemo {
  import opened Basics
  import opened SwiftContext

  datatype Entry = Entry(ctx: Context, pos: nat)

  datatype Memo = Memo(depth: nat, entries: map<u64, Entry>)

  const FRESH: Memo := Memo(0, map[])

  // ---- The memo's critical sections ----

  function Opened(m: Memo): Memo { m.(depth := m.depth + 1) }

  /** The last scope to close drops the entries. */
  function Closed(m: Memo): Memo
    requires m.depth > 0
  {
    if m.depth == 1 then FRESH else m.(depth := m.depth - 1)
  }

  /** swiftContextMemoUsable. */
  predicate Usable(w: World, library: bool) { !w.callerCode && library }

  /** What the first critical section decides. */
  datatype Probe = Replay(entry: Entry) | Run(remember: bool)

  function Probed(m: Memo, w: World, library: bool, addr: u64): Probe {
    if !Usable(w, library) || m.depth == 0 then Run(false)
    else if addr in m.entries then Replay(m.entries[addr])
    else Run(true)
  }

  /** The second critical section, after a lookup that started at before. */
  function Remembered(m: Memo, addr: u64, before: nat, l: Lookup): Memo {
    if l.Found? && l.pos != before && m.depth > 0 then m.(entries := m.entries[addr := Entry(l.ctx, l.pos)])
    else m
  }

  /** Without a scope, through any other reader than the library's own, and while caller code may
      run inside a lookup, the memo is neither read nor written. */
  lemma MemoIsUsedExactly(m: Memo, w: World, library: bool, addr: u64)
    ensures var used := m.depth > 0 && library && !w.callerCode;
            && (Probed(m, w, library, addr) == Run(false) <==> !used)
            && (Probed(m, w, library, addr) == Run(true) <==> used && addr !in m.entries)
            && (Probed(m, w, library, addr).Replay? <==> used && addr in m.entries)
            && (used && addr in m.entries ==> Probed(m, w, library, addr) == Replay(m.entries[addr]))
  {
  }

  // ---- Scopes ----

  datatype Bracket = Enter | Leave

  /** How many more scopes are open behind the brackets than before them. */
  function Depth(bs: seq<Bracket>): int {
    if bs == [] then 0 else Depth(bs[..|bs| - 1]) + if bs[|bs| - 1].Enter? then 1 else -1
  }

  /** The memo behind them, or None where a scope is closed that is not open. */
  function Behind(m: Memo, bs: seq<Bracket>): Option<Memo> {
    if bs == [] then Some(m)
    else
      match (Behind(m, bs[..|bs| - 1]), bs[|bs| - 1])
      case (Some(n), Enter) => Some(Opened(n))
      case (Some(n), Leave) => if n.depth > 0 then Some(Closed(n)) else None
      case _ => None
  }

  /** Scopes are counted; the entries last until as many were closed as were open. */
  lemma {:induction false} ScopesAreCounted(m: Memo, bs: seq<Bracket>)
    ensures Behind(m, bs).Some? <==> forall k :: 0 <= k <= |bs| ==> m.depth + Depth(bs[..k]) >= 0
    ensures Behind(m, bs).Some? ==>
              var n := Behind(m, bs).value;
              && n.depth == m.depth + Depth(bs)
              && n.entries == if exists k :: 0 < k <= |bs| && m.depth + Depth(bs[..k]) == 0 then map[] else m.entries
  {
    assert bs[..|bs|] == bs;
    if bs != [] {
      var before := bs[..|bs| - 1];
      ScopesAreCounted(m, before);
      assert forall k :: 0 <= k < |bs| ==> bs[..k] == before[..k];
    }
  }

  // ---- Which lookups may be replayed ----

  /** The entry is what every cursor gets from the uncached lookup. */
  ghost predicate Replays(w: World, addr: u64, e: Entry) {
    forall p: nat :: Uncached(w, addr, p) == Found(e.ctx, e.pos)
  }

  ghost predicate Valid(m: Memo, w: World) {
    && (m.depth == 0 ==> m.entries == map[])
    && (forall addr :: addr in m.entries ==> Replays(w, addr, m.entries[addr]))
  }

  /** A success that moved its cursor replays on every cursor. */
  lemma MovedReplays(w: World, addr: u64, before: nat)
    requires Uncached(w, addr, before).Found? && Uncached(w, addr, before).pos != before
    ensures Replays(w, addr, Entry(Uncached(w, addr, before).ctx, Uncached(w, addr, before).pos))
  {
    hide Chain;
    forall p: nat ensures Uncached(w, addr, p) == Uncached(w, addr, before) {
      StartDoesNotMatter(w, addr, [], p, before);
    }
  }

  /** Exactly the successful lookups that move some cursor have an entry that replays them;
      the one position a moving lookup may start from without being remembered is its end. */
  lemma ReplayableExactly(w: World, addr: u64)
    ensures (exists e :: Replays(w, addr, e))
            <==> exists p: nat :: Uncached(w, addr, p).Found? && Uncached(w, addr, p).pos != p
    ensures forall p: nat, q: nat ::
              Uncached(w, addr, p).pos != p && Uncached(w, addr, q).pos == q ==> q == Uncached(w, addr, p).pos
  {
    hide Chain;
    if e :| Replays(w, addr, e) {
      var p := e.pos + 1;
      assert Uncached(w, addr, p).pos != p;
    }
    if p: nat :| Uncached(w, addr, p).Found? && Uncached(w, addr, p).pos != p {
      MovedReplays(w, addr, p);
    }
    forall p: nat, q: nat | Uncached(w, addr, p).pos != p && Uncached(w, addr, q).pos == q
      ensures q == Uncached(w, addr, p).pos {
      StartDoesNotMatter(w, addr, [], p, q);
    }
  }

  // ---- Each critical section keeps the memo valid ----

  lemma ScopesKeepValid(m: Memo, w: World)
    requires Valid(m, w)
    ensures Valid(Opened(m), w)
    ensures m.depth > 0 ==> Valid(Closed(m), w)
  {
  }

  lemma RememberingKeepsValid(m: Memo, w: World, addr: u64, before: nat)
    requires Valid(m, w)
    ensures Valid(Remembered(m, addr, before, Uncached(w, addr, before)), w)
  {
    hide Replays;
    var l := Uncached(w, addr, before);
    if l.Found? && l.pos != before {
      MovedReplays(w, addr, before);
    }
  }

  /** Outside every scope the memo is valid in any world. */
  lemma NothingOutlivesItsScope(m: Memo, w: World, changed: World)
    requires Valid(m, w) && m.depth == 0
    ensures Valid(m, changed)
  {
  }

  // ---- The File ----

  class File {
    var world: World
    var depth: nat
    var entries: map<u64, Entry>

    function TheMemo(): Memo
      reads this
    {
      Memo(depth, entries)
    }

    ghost predicate Sound()
      reads this
    {
      Valid(TheMemo(), world)
    }

    constructor (w: World)
      ensures Sound() && TheMemo() == FRESH && world == w
    {
      world, depth, entries := w, 0, map[];
    }

    /** swiftContextScope. */
    method OpenScope()
      requires Sound()
      modifies this
      ensures Sound() && TheMemo() == Opened(old(TheMemo())) && world == old(world)
    {
      depth := depth + 1;
    }

    /** The function swiftContextScope returns. */
    method CloseScope()
      requires Sound() && depth > 0
      modifies this
      ensures Sound() && TheMemo() == Closed(old(TheMemo())) && world == old(world)
    {
      depth := depth - 1;
      if depth == 0 {
        entries := map[];
      }
    }

    /** The caller may change what lookups depend on between parsing calls. */
    method ChangeWorld(w: World)
      requires Sound() && depth == 0
      modifies this
      ensures Sound() && world == w && TheMemo() == old(TheMemo())
    {
      world := w;
    }

    /** getContextDesc gives the answer, and leaves the cursor, as getContextDescUncached does. */
    method GetContextDesc(cr: Cursor, addr: u64) returns (a: Answer)
      requires Sound()
      modifies this, cr
      ensures Sound() && world == old(world)
      ensures a == AnswerOf(Uncached(world, addr, old(cr.pos)))
      ensures cr.pos == Uncached(world, addr, old(cr.pos)).pos
      ensures TheMemo() == (match Probed(old(TheMemo()), world, cr.library, addr)
                            case Run(true) => Remembered(old(TheMemo()), addr, old(cr.pos), Uncached(world, addr, old(cr.pos)))
                            case _ => old(TheMemo()))
    {
      hide Chain, Replays;
      if world.callerCode || !cr.library {
        a := GetContextDescChain(world, cr, addr, []);
        return;
      }
      var active := depth > 0;
      if !active {
        a := GetContextDescChain(world, cr, addr, []);
        return;
      }
      if addr in entries {
        HitIsUncached(TheMemo(), world, addr, cr.pos);
        cr.pos := entries[addr].pos;
        return Ok(entries[addr].ctx);
      }
      var before := cr.pos;
      a := GetContextDescChain(world, cr, addr, []);
      RememberingKeepsValid(TheMemo(), world, addr, before);
      if a.Ok? && cr.pos != before && depth > 0 {
        entries := entries[addr := Entry(a.ctx, cr.pos)];
      }
    }
  }

  lemma HitIsUncached(m: Memo, w: World, addr: u64, pos: nat)
    requires Valid(m, w) && addr in m.entries
    ensures Uncached(w, addr, pos) == Found(m.entries[addr].ctx, m.entries[addr].pos)
  {
    hide Chain;
    assert Replays(w, addr, m.entries[addr]);
  }

  // ---- Interleaved calls ----

  /** One caller: its cursor, and the lookup it is in the middle of. */
  datatype Task = Task(pos: nat, library: bool, doing: Doing)
  datatype Doing = Nothing | Looking(addr: u64, remember: bool)

  /** What a caller of getContextDesc saw. */
  datatype Seen = Seen(world: World, addr: u64, start: nat, answer: Answer, end: nat)

  datatype State = State(world: World, memo: Memo, tasks: seq<Task>, log: seq<Seen>)

  datatype Event =
    | OpenEvent | CloseEvent
    | NewCaller(library: bool)
    | Move(task: nat, pos: nat)       // other code moves the cursor
    | Ask(task: nat, addr: u64)       // getContextDesc up to the end of its first critical section
    | Answered(task: nat)             // the lookup, and the second critical section
    | Change(world: World)

  predicate Quiet(s: State) {
    s.memo.depth == 0 && forall i :: 0 <= i < |s.tasks| ==> s.tasks[i].doing == Nothing
  }

  /** What may happen next. The world changes only while no parsing call is open. */
  predicate Enabled(s: State, e: Event) {
    match e
    case OpenEvent => true
    case CloseEvent => s.memo.depth > 0
    case NewCaller(_) => true
    case Move(i, _) => i < |s.tasks| && s.tasks[i].doing == Nothing
    case Ask(i, _) => i < |s.tasks| && s.tasks[i].doing == Nothing
    case Answered(i) => i < |s.tasks| && s.tasks[i].doing.Looking?
    case Change(_) => Quiet(s)
  }

  function Next(s: State, e: Event): State
    requires Enabled(s, e)
  {
    match e
    case OpenEvent => s.(memo := Opened(s.memo))
    case CloseEvent => s.(memo := Closed(s.memo))
    case NewCaller(library) => s.(tasks := s.tasks + [Task(0, library, Nothing)])
    case Move(i, pos) => s.(tasks := s.tasks[i := s.tasks[i].(pos := pos)])
    case Ask(i, addr) =>
      var t := s.tasks[i];
      (match Probed(s.memo, s.world, t.library, addr)
       case Replay(entry) =>
         s.(tasks := s.tasks[i := t.(pos := entry.pos)],
            log := s.log + [Seen(s.world, addr, t.pos, Ok(entry.ctx), entry.pos)])
       case Run(remember) => s.(tasks := s.tasks[i := t.(doing := Looking(addr, remember))]))
    case Answered(i) =>
      var t := s.tasks[i];
      var l := Uncached(s.world, t.doing.addr, t.pos);
      s.(tasks := s.tasks[i := t.(pos := l.pos, doing := Nothing)],
         memo := if t.doing.remember then Remembered(s.memo, t.doing.addr, t.pos, l) else s.memo,
         log := s.log + [Seen(s.world, t.doing.addr, t.pos, AnswerOf(l), l.pos)])
    case Change(w) => s.(world := w)
  }

  ghost predicate Right(o: Seen) {
    var l := Uncached(o.world, o.addr, o.start);
    o.answer == AnswerOf(l) && o.end == l.pos
  }

  ghost predicate Inv(s: State) {
    Valid(s.memo, s.world) && forall i :: 0 <= i < |s.log| ==> Right(s.log[i])
  }

  lemma StepKeepsInv(s: State, e: Event)
    requires Inv(s) && Enabled(s, e)
    ensures Inv(Next(s, e))
  {
    hide Chain, Valid, Remembered, Closed, Opened;
    match e
    case OpenEvent => ScopesKeepValid(s.memo, s.world);
    case CloseEvent => ScopesKeepValid(s.memo, s.world);
    case NewCaller(_) =>
    case Move(_, _) =>
    case Ask(i, addr) =>
      if Probed(s.memo, s.world, s.tasks[i].library, addr).Replay? {
        HitIsUncached(s.memo, s.world, addr, s.tasks[i].pos);
      }
    case Answered(i) =>
      RememberingKeepsValid(s.memo, s.world, s.tasks[i].doing.addr, s.tasks[i].pos);
    case Change(w) => NothingOutlivesItsScope(s.memo, s.world, w);
  }

  /** A run: the state before each event, and the one after the last. */
  ghost predicate IsRun(run: seq<State>, events: seq<Event>) {
    && |run| == |events| + 1
    && run[0].memo == FRESH && run[0].tasks == [] && run[0].log == []
    && forall i :: 0 <= i < |events| ==> Enabled(run[i], events[i]) && run[i + 1] == Next(run[i], events[i])
  }

  /** Over every interleaving of scopes, lookups through any cursors and world changes between
      parsing calls, every lookup is answered as getContextDescUncached would in the world it
      was asked in, and leaves its cursor where that would leave it. */
  lemma {:induction false} EveryAnswerIsUncached(run: seq<State>, events: seq<Event>)
    requires IsRun(run, events)
    ensures Inv(run[|events|])
  {
    hide Inv, Next, Enabled;
    if events == [] {
      FreshIsInv(run[0]);
    } else {
      var n := |events| - 1;
      assert events[..n] + [events[n]] == events;
      assert IsRun(run[..n + 1], events[..n]);
      EveryAnswerIsUncached(run[..n + 1], events[..n]);
      StepKeepsInv(run[n], events[n]);
    }
  }

  lemma FreshIsInv(s: State)
    requires s.memo == FRESH && s.log == []
    ensures Inv(s)
  {
  }

  /** The memo does its work: inside one scope, a lookup that was remembered is replayed for
      every library cursor, whatever else is remembered after it. */
  lemma RememberedIsReplayed(m: Memo, w: World, addr: u64, before: nat, other: u64, start: nat, library: bool)
    requires Valid(m, w) && m.depth > 0 && Usable(w, library)
    requires Uncached(w, addr, before).Found? && Uncached(w, addr, before).pos != before
    ensures var l := Uncached(w, addr, before);
            var after := Remembered(Remembered(m, addr, before, l), other, start, Uncached(w, other, start));
            Probed(after, w, library, addr) == Replay(Entry(l.ctx, l.pos))
  {
    hide Chain;
    if other == addr {
      StartDoesNotMatter(w, addr, [], before, start);
    }
  }

  /** What a caller does without interruption. */
  function Whole(s: State, i: nat, addr: u64): State
    requires Enabled(s, Ask(i, addr))
  {
    var asked := Next(s, Ask(i, addr));
    if asked.tasks[i].doing.Looking? then Next(asked, Answered(i)) else asked
  }

  /** An uninterrupted lookup changes the memo as GetContextDesc does, and only its own cursor. */
  lemma UninterruptedLookup(s: State, i: nat, addr: u64)
    requires Enabled(s, Ask(i, addr)) && Valid(s.memo, s.world)
    ensures var t, l := s.tasks[i], Uncached(s.world, addr, s.tasks[i].pos);
            Whole(s, i, addr) ==
            State(s.world,
                  match Probed(s.memo, s.world, t.library, addr)
                  case Run(true) => Remembered(s.memo, addr, t.pos, l)
                  case _ => s.memo,
                  s.tasks[i := t.(pos := l.pos)], s.log + [Seen(s.world, addr, t.pos, AnswerOf(l), l.pos)])
  {
    hide Chain, Valid, Remembered;
    var t := s.tasks[i];
    if Probed(s.memo, s.world, t.library, addr).Replay? {
      HitIsUncached(s.memo, s.world, addr, t.pos);
    }
  }

  /** Inside a scope a lookup that moved its cursor is answered at once from then on, for every
      idle library cursor. */
  lemma NextAskIsReplayed(s: State, i: nat, j: nat, addr: u64)
    requires Enabled(s, Ask(i, addr)) && Enabled(s, Ask(j, addr)) && Valid(s.memo, s.world)
    requires s.memo.depth > 0 && !s.world.callerCode && s.tasks[i].library && s.tasks[j].library
    requires var l := Uncached(s.world, addr, s.tasks[i].pos); l.Found? && l.pos != s.tasks[i].pos
    ensures Enabled(Whole(s, i, addr), Ask(j, addr))
    ensures Next(Whole(s, i, addr), Ask(j, addr)).tasks[j].doing == Nothing
    ensures Next(Whole(s, i, addr), Ask(j, addr)).memo == Whole(s, i, addr).memo
  {
    hide Chain, Valid;
    UninterruptedLookup(s, i, addr);
  }

  // ---- One caller at a time, on the real structures ----

  datatype Request =
    | Open | Close
    | Seek(cursor: nat, addr: u64)
    | Lookup(cursor: nat, addr: u64)
    | SetWorld(world: World)

  /** The state a caller can tell apart: the world, the scopes open, the cursors' positions. */
  datatype Moment = Moment(world: World, depth: nat, positions: seq<nat>)

  /** A run in which every lookup is uncached: its answers, and the state it ends in. Closing
      without a scope, changing the world within one and cursors that are not there do nothing. */
  datatype History = History(log: seq<Seen>, now: Moment)

  function Then(h: History, r: Request): History {
    var now := h.now;
    match r
    case Open => h.(now := now.(depth := now.depth + 1))
    case Close => if now.depth > 0 then h.(now := now.(depth := now.depth - 1)) else h
    case Seek(c, addr) =>
      if c < |now.positions| && SeekTarget(now.world, addr).Some? then
        h.(now := now.(positions := now.positions[c := SeekTarget(now.world, addr).value]))
      else h
    case Lookup(c, addr) =>
      if c < |now.positions| then
        var l := Uncached(now.world, addr, now.positions[c]);
        History(h.log + [Seen(now.world, addr, now.positions[c], AnswerOf(l), l.pos)],
                now.(positions := now.positions[c := l.pos]))
      else h
    case SetWorld(w) => if now.depth == 0 then h.(now := now.(world := w)) else h
  }

  function UncachedRun(start: Moment, requests: seq<Request>): History {
    if requests == [] then History([], start)
    else Then(UncachedRun(start, requests[..|requests| - 1]), requests[|requests| - 1])
  }

  /** The callers of one File, each with its own cursor. */
  class Session {
    const f: File
    const cursors: seq<Cursor>

    ghost predicate Ready()
      reads this, f
    {
      f.Sound() && forall i, j :: 0 <= i < j < |cursors| ==> cursors[i] != cursors[j]
    }

    function Positions(): (ps: seq<nat>)
      reads set c | c in cursors
      ensures |ps| == |cursors| && forall i :: 0 <= i < |cursors| ==> ps[i] == cursors[i].pos
    {
      seq(|cursors|, i requires 0 <= i < |cursors| reads set c | c in cursors => cursors[i].pos)
    }

    function Now(): Moment
      reads f, set c | c in cursors
    {
      Moment(f.world, f.depth, Positions())
    }

    constructor (f: File, cursors: seq<Cursor>)
      requires f.Sound() && forall i, j :: 0 <= i < j < |cursors| ==> cursors[i] != cursors[j]
      ensures Ready() && this.f == f && this.cursors == cursors
    {
      this.f, this.cursors := f, cursors;
    }

    method Handle(r: Request) returns (seen: Option<Seen>)
      requires Ready()
      modifies f, set c | c in cursors
      ensures Ready()
      ensures Then(History([], old(Now())), r) == History(if seen.Some? then [seen.value] else [], Now())
    {
      hide Chain, Valid, Probed, Remembered, SeekTarget;
      seen := None;
      match r
      case Open => f.OpenScope();
      case Close =>
        if f.depth > 0 {
          f.CloseScope();
        }
      case Seek(c, addr) =>
        if c < |cursors| {
          SeekAt(c, addr);
        }
      case Lookup(c, addr) =>
        if c < |cursors| {
          var s := LookUp(c, addr);
          seen := Some(s);
        }
      case SetWorld(w) =>
        if f.depth == 0 {
          f.ChangeWorld(w);
        }
    }

    method SeekAt(c: nat, addr: u64)
      requires Ready() && c < |cursors|
      modifies cursors[c]
      ensures Ready()
      ensures Now() == if SeekTarget(f.world, addr).Some?
                       then old(Now()).(positions := old(Now()).positions[c := SeekTarget(f.world, addr).value]) else old(Now())
    {
      hide SeekTarget;
      var ok := cursors[c].SeekToAddr(f.world, addr);
      OthersStay(c);
      assert Positions() == if ok then old(Positions())[c := cursors[c].pos] else old(Positions());
    }

    method LookUp(c: nat, addr: u64) returns (s: Seen)
      requires Ready() && c < |cursors|
      modifies f, cursors[c]
      ensures Ready()
      ensures var l := Uncached(f.world, addr, old(cursors[c].pos));
              && s == Seen(f.world, addr, old(cursors[c].pos), AnswerOf(l), l.pos)
              && Now() == old(Now()).(positions := old(Now()).positions[c := l.pos])
    {
      hide Chain, Valid;
      var start := cursors[c].pos;
      var a := f.GetContextDesc(cursors[c], addr);
      OthersStay(c);
      ProbeKeepsDepth(old(f.TheMemo()), f.world, cursors[c].library, addr, start);
      assert Positions() == old(Positions())[c := cursors[c].pos];
      s := Seen(f.world, addr, start, a, cursors[c].pos);
    }

    lemma OthersStay(c: nat)
      requires Ready() && c < |cursors|
      ensures forall i :: 0 <= i < |cursors| && i != c ==> cursors[i] != cursors[c]
    {
    }

    /** Over every run of scopes, seeks, lookups and changes of the world outside scopes, the
        answers, the positions lookups start and end at, and the state at the end are those of the
        run in which every lookup is uncached. */
    method Serve(requests: seq<Request>) returns (log: seq<Seen>)
      requires Ready()
      modifies f, set c | c in cursors
      ensures Ready() && History(log, Now()) == UncachedRun(old(Now()), requests)
    {
      hide Then, Chain, Now;
      log := [];
      ghost var start := Now();
      assert requests[..0] == [];
      for i := 0 to |requests|
        invariant Ready() && History(log, Now()) == UncachedRun(start, requests[..i])
      {
        assert requests[..i + 1][..i] == requests[..i];
        ghost var before := Now();
        var seen := Handle(requests[i]);
        LogGrows(log, before, requests[i]);
        if seen.Some? {
          log := log + [seen.value];
        } else {
          assert log + [] == log;
        }
      }
      assert requests[..|requests|] == requests;
    }
  }

  lemma ProbeKeepsDepth(m: Memo, w: World, library: bool, addr: u64, before: nat)
    ensures var l := Uncached(w, addr, before);
            (match Probed(m, w, library, addr) case Run(true) => Remembered(m, addr, before, l) case _ => m).depth == m.depth
  {
    hide Chain;
  }

  lemma LogGrows(log: seq<Seen>, now: Moment, r: Request)
    ensures Then(History(log, now), r) ==
            History(log + Then(History([], now), r).log, Then(History([], now), r).now)
  {
    hide Chain, SeekTarget;
    assert log + [] == log;
  }
}
