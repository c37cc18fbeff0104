/**
 * The mapping protocol as a state machine. A map or unmap task locks a segment, runs in slices,
 * and removes the segment when it completes.
 */
module VmaTasks {
  import opened Wrappers
  import opened VmaNodes
  import opened VmaLayout
  import opened VmaJoin

  const PAGE_SIZE: nat := 4096

  datatype UnmapError = SegmentAlreadyUnmapped | SegmentLocked

  datatype SegmentFlags = SegmentFlags(read: bool, write: bool, execute: bool)

  /** A task handed to a process; the segment it works on begins at `start`. */
  datatype Task =
    | MapTask(start: nat, pages: nat, flags: SegmentFlags)
    | UnmapTask(start: nat, pages: nat)

  /** What the page-mapping part of a task reports after one slice. */
  datatype Poll = Pending | Done(pages: nat) | Failed

  /** The segments, the tasks still to be run, and the starts of the segments of failed map tasks. */
  datatype State = State(segs: set<Segment>, live: map<nat, Task>, failed: set<nat>)

  /** One call on the allocator and its answer; `id` names the task that it creates or runs. */
  datatype Event =
    | MapAt(id: nat, start: nat, len: nat, flags: SegmentFlags, mapped: Result<Task, MapError>)
    | Unmap(id: nat, addr: nat, unmapped: Result<Task, UnmapError>)
    | Ran(id: nat, poll: Poll)

  const START: State := State({}, map[], {})

  function NodeFlags(flags: SegmentFlags): Flags {
    Flags(flags.read, flags.write, flags.execute, false)
  }

  function Locked(s: Segment, locked: bool): Segment {
    s.(flags := s.flags.(locked := locked))
  }

  /** No address of start..start+len-1 belongs to a segment. */
  ghost predicate Free(segs: set<Segment>, start: nat, len: nat) {
    forall s, addr: nat | s in segs && start <= addr < start + len :: !Contains(s, addr)
  }

  ghost predicate MapStep(st: State, id: nat, start: nat, len: nat, flags: SegmentFlags, r: Result<Task, MapError>, st': State) {
    match r
    case Err(SegmentAlreadyExists) => !Free(st.segs, start, len) && st' == st
    case Err(OutOfMemory) => Free(st.segs, start, len) && st' == st
    case Ok(task) =>
      && Free(st.segs, start, len) && len > 0 && id !in st.live
      && task == MapTask(start, len / PAGE_SIZE, flags)
      && st' == State(st.segs + {Locked(Segment(start, len, NodeFlags(flags)), true)}, st.live[id := task], st.failed)
  }

  ghost predicate UnmapStep(st: State, id: nat, addr: nat, r: Result<Task, UnmapError>, st': State) {
    match r
    case Err(SegmentAlreadyUnmapped) => (forall s | s in st.segs :: !Contains(s, addr)) && st' == st
    case Err(SegmentLocked) => (exists s | s in st.segs :: Contains(s, addr) && s.flags.locked) && st' == st
    case Ok(task) =>
      && id !in st.live
      && exists s | s in st.segs ::
        && Contains(s, addr) && !s.flags.locked
        && task == UnmapTask(s.start, s.len / PAGE_SIZE)
        && st' == State(Without(st.segs, addr) + {Locked(s, true)}, st.live[id := task], st.failed)
  }

  /** Completion removes the segment, for map tasks too; a failed map task leaves its segment locked. */
  ghost predicate RunStep(st: State, id: nat, poll: Poll, st': State) {
    && id in st.live
    && match poll
       case Pending => st' == st
       case Done(_) => st' == State(Without(st.segs, st.live[id].start), st.live - {id}, st.failed)
       case Failed => st.live[id].MapTask? && st' == State(st.segs, st.live - {id}, st.failed + {st.live[id].start})
  }

  ghost predicate Next(st: State, e: Event, st': State) {
    match e
    case MapAt(id, start, len, flags, r) => MapStep(st, id, start, len, flags, r, st')
    case Unmap(id, addr, r) => UnmapStep(st, id, addr, r, st')
    case Ran(id, poll) => RunStep(st, id, poll, st')
  }

  /** A call, or nothing. */
  ghost predicate Moves(st: State, e: Option<Event>, st': State) {
    if e.None? then st' == st else Next(st, e.value, st')
  }

  /** Any interleaving of calls. */
  ghost predicate Trace(states: seq<State>, events: seq<Option<Event>>) {
    && |states| == |events| + 1
    && forall i | 0 <= i < |events| :: Moves(states[i], events[i], states[i + 1])
  }

  // ----- what the steps do, spelled out -----

  /** A request to map adds one locked segment with the wanted rights and one task for its pages, or nothing. */
  lemma MapMeans(st: State, id: nat, start: nat, len: nat, flags: SegmentFlags, r: Result<Task, MapError>, st': State)
    requires Next(st, MapAt(id, start, len, flags, r), st') && Owned(st) && len > 0 && len % 4096 == 0
    ensures r.Err? ==> st' == st
    ensures r == Err(SegmentAlreadyExists) <==> exists s | s in st.segs :: s.start < start + len && start < s.start + s.len
    ensures r.Ok? ==>
      && st'.segs == st.segs + {Segment(start, len, Flags(flags.read, flags.write, flags.execute, true))}
      && r.value.MapTask? && r.value.start == start && r.value.pages * 4096 == len && r.value.flags == flags
      && st'.live == st.live[id := r.value] && id !in st.live && st'.failed == st.failed
  {
    forall s | s in st.segs && s.start < start + len && start < s.start + s.len
      ensures !Free(st.segs, start, len)
    {
      assert Contains(s, if s.start < start then start else s.start);
    }
    if !Free(st.segs, start, len) {
      var s, addr: nat :| s in st.segs && start <= addr < start + len && Contains(s, addr);
      assert s.start < start + len && start < s.start + s.len;
    }
  }

  /** A request to unmap locks the one unlocked segment that holds the address, or does nothing. */
  lemma UnmapMeans(st: State, id: nat, addr: nat, r: Result<Task, UnmapError>, st': State)
    requires Next(st, Unmap(id, addr, r), st') && Owned(st)
    ensures r.Err? ==> st' == st
    ensures r == Err(SegmentAlreadyUnmapped) <==> forall s | s in st.segs :: !(s.start <= addr < s.start + s.len)
    ensures r == Err(SegmentLocked) <==> exists s | s in st.segs :: s.start <= addr < s.start + s.len && s.flags.locked
    ensures r.Ok? ==> exists s | s in st.segs ::
      && s.start <= addr < s.start + s.len && st'.segs == st.segs - {s} + {s.(flags := s.flags.(locked := true))}
      && r.value.UnmapTask? && r.value.start == s.start && r.value.pages * 4096 <= s.len < (r.value.pages + 1) * 4096
      && st'.live == st.live[id := r.value] && id !in st.live && st'.failed == st.failed
  {
    if r.Ok? {
      var s :| s in st.segs && Contains(s, addr) && !s.flags.locked && r.value == UnmapTask(s.start, s.len / PAGE_SIZE)
        && st' == State(Without(st.segs, addr) + {Locked(s, true)}, st.live[id := r.value], st.failed);
      assert Without(st.segs, addr) == st.segs - {s};
      assert s.start <= addr < s.start + s.len;
    } else if r.error.SegmentLocked? {
      var s :| s in st.segs && Contains(s, addr) && s.flags.locked;
      assert s.start <= addr < s.start + s.len;
    } else {
      assert forall s | s in st.segs :: !Contains(s, addr);
    }
  }

  /** The last slice of a task takes its segment away; a failed one leaves it locked; any other does nothing. */
  lemma RunMeans(st: State, id: nat, poll: Poll, st': State)
    requires Next(st, Ran(id, poll), st') && Owned(st)
    ensures poll.Pending? ==> st' == st
    ensures poll.Done? ==> exists s | s in st.segs :: s.start == st.live[id].start && st' == State(st.segs - {s}, st.live - {id}, st.failed)
    ensures poll.Failed? ==> st' == State(st.segs, st.live - {id}, st.failed + {st.live[id].start}) && st.live[id].MapTask?
  {
    if poll.Done? {
      var s := TaskSegment(st, id);
      assert Without(st.segs, st.live[id].start) == st.segs - {s};
    }
  }

  // ----- who holds which lock -----

  ghost predicate Apart(segs: set<Segment>) {
    && (forall s | s in segs :: s.len > 0)
    && forall s, s', addr: nat | s in segs && s' in segs && Contains(s, addr) && Contains(s', addr) :: s == s'
  }

  ghost predicate HoldsLock(segs: set<Segment>, start: nat) {
    exists s :: s in segs && s.start == start && s.flags.locked
  }

  /**
   * Segments are apart; every live task and every failed map task has its own locked segment, and
   * nobody else holds a lock.
   */
  ghost predicate Owned(st: State) {
    && Apart(st.segs)
    && (forall id | id in st.live :: HoldsLock(st.segs, st.live[id].start) && st.live[id].start !in st.failed)
    && (forall id, id' | id in st.live && id' in st.live && id != id' :: st.live[id].start != st.live[id'].start)
    && (forall start | start in st.failed :: HoldsLock(st.segs, start))
    && forall s | s in st.segs && s.flags.locked :: s.start in st.failed || exists id :: id in st.live && st.live[id].start == s.start
  }

  lemma SameStart(segs: set<Segment>, s: Segment, s': Segment)
    requires Apart(segs) && s in segs && s' in segs && s.start == s'.start
    ensures s == s'
  {
    assert Contains(s, s.start) && Contains(s', s.start);
  }

  /** Removing or adding a segment elsewhere leaves a lock in place. */
  lemma LockKept(segs: set<Segment>, segs': set<Segment>, start: nat)
    requires HoldsLock(segs, start) && forall s | s in segs && s.start == start :: s in segs'
    ensures HoldsLock(segs', start)
  {
  }

  lemma MapKeeps(st: State, id: nat, start: nat, len: nat, flags: SegmentFlags, r: Result<Task, MapError>, st': State)
    requires Owned(st) && MapStep(st, id, start, len, flags, r, st')
    ensures Owned(st')
  {
    if r.Ok? {
      var added := Locked(Segment(start, len, NodeFlags(flags)), true);
      assert Apart(st'.segs) by {
        forall s, addr: nat | s in st.segs && Contains(s, addr)
          ensures !Contains(added, addr)
        {
        }
      }
      assert added in st'.segs;
      forall other | HoldsLock(st.segs, other)
        ensures HoldsLock(st'.segs, other) && other != start
      {
        LockKept(st.segs, st'.segs, other);
        var s :| s in st.segs && s.start == other && s.flags.locked;
        assert Contains(s, other);
      }
      LocksCovered(st, st', id);
    }
  }

  /** Adding one task for one newly locked segment keeps every lock accounted for. */
  lemma LocksCovered(st: State, st': State, id: nat)
    requires Owned(st) && id !in st.live && id in st'.live
    requires st'.live == st.live[id := st'.live[id]] && st'.failed == st.failed
    requires forall s | s in st'.segs && s.flags.locked && s.start != st'.live[id].start :: s in st.segs
    ensures forall s | s in st'.segs && s.flags.locked ::
      s.start in st'.failed || exists k :: k in st'.live && st'.live[k].start == s.start
  {
    forall s | s in st'.segs && s.flags.locked && s.start !in st'.failed
      ensures exists k :: k in st'.live && st'.live[k].start == s.start
    {
      if s.start != st'.live[id].start {
        var k :| k in st.live && st.live[k].start == s.start;
        assert k in st'.live && st'.live[k].start == s.start;
      }
    }
  }

  lemma UnmapKeeps(st: State, id: nat, addr: nat, r: Result<Task, UnmapError>, st': State)
    requires Owned(st) && UnmapStep(st, id, addr, r, st')
    ensures Owned(st')
  {
    if r.Ok? {
      var s :| s in st.segs && Contains(s, addr) && !s.flags.locked && r.value == UnmapTask(s.start, s.len / PAGE_SIZE)
        && st' == State(Without(st.segs, addr) + {Locked(s, true)}, st.live[id := r.value], st.failed);
      var s' := Locked(s, true);
      assert s' in st'.segs;
      assert forall a: nat :: Contains(s', a) == Contains(s, a);
      forall other | HoldsLock(st.segs, other)
        ensures HoldsLock(st'.segs, other) && other != s.start
      {
        var x :| x in st.segs && x.start == other && x.flags.locked;
        if x.start == s.start {
          SameStart(st.segs, x, s);
        }
        assert x in Without(st.segs, addr);
        assert x in st'.segs;
      }
      LocksCovered(st, st', id);
    }
  }

  lemma RunKeeps(st: State, id: nat, poll: Poll, st': State)
    requires Owned(st) && RunStep(st, id, poll, st')
    ensures Owned(st')
  {
    if poll.Done? {
      var start := st.live[id].start;
      forall other | HoldsLock(st.segs, other) && other != start
        ensures HoldsLock(st'.segs, other)
      {
        var x :| x in st.segs && x.start == other && x.flags.locked;
        var own :| own in st.segs && own.start == start && own.flags.locked;
        assert Contains(own, start);
        assert x in st'.segs;
      }
      forall s | s in st'.segs && s.flags.locked && s.start !in st'.failed
        ensures exists k :: k in st'.live && st'.live[k].start == s.start
      {
        var k :| k in st.live && st.live[k].start == s.start;
        assert Contains(s, s.start) && k != id;
        assert k in st'.live && st'.live[k].start == s.start;
      }
    } else if poll.Failed? {
      forall s | s in st'.segs && s.flags.locked && s.start !in st'.failed
        ensures exists k :: k in st'.live && st'.live[k].start == s.start
      {
        var k :| k in st.live && st.live[k].start == s.start;
        assert k in st'.live && st'.live[k].start == s.start;
      }
    }
  }

  lemma StepKeeps(st: State, e: Event, st': State)
    requires Owned(st) && Next(st, e, st')
    ensures Owned(st')
  {
    match e
    case MapAt(id, start, len, flags, r) => MapKeeps(st, id, start, len, flags, r, st');
    case Unmap(id, addr, r) => UnmapKeeps(st, id, addr, r, st');
    case Ran(id, poll) => RunKeeps(st, id, poll, st');
  }

  /** Over every interleaving, locks are owned one to one. */
  lemma {:induction false} TraceKeeps(states: seq<State>, events: seq<Option<Event>>, i: nat)
    requires Trace(states, events) && Owned(states[0]) && i < |states|
    ensures Owned(states[i])
  {
    if i > 0 {
      TraceKeeps(states, events, i - 1);
      assert Moves(states[i - 1], events[i - 1], states[i - 1 + 1]);
      if events[i - 1].Some? {
        StepKeeps(states[i - 1], events[i - 1].value, states[i]);
      }
    }
  }

  /** A live task finds its own segment: used, locked, beginning at its start, and the only one there. */
  lemma TaskSegment(st: State, id: nat) returns (s: Segment)
    requires Owned(st) && id in st.live
    ensures s in st.segs && s.start == st.live[id].start && s.flags.locked && Contains(s, st.live[id].start)
    ensures forall s' | s' in st.segs && Contains(s', st.live[id].start) :: s' == s
  {
    s :| s in st.segs && s.start == st.live[id].start && s.flags.locked;
  }

  // ----- what the protocol as written never does -----

  ghost predicate AllLocked(st: State) {
    (forall s | s in st.segs :: s.flags.locked) && forall id | id in st.live :: st.live[id].MapTask?
  }

  lemma LockedStep(st: State, e: Event, st': State)
    requires AllLocked(st) && Next(st, e, st')
    ensures AllLocked(st') && (e.Unmap? ==> e.unmapped.Err?)
  {
  }

  /**
   * Because a completed map task removes its segment, no segment is ever both mapped and unlocked:
   * from a new allocator, no request to unmap succeeds, whatever the interleaving.
   */
  lemma {:induction false} NothingToUnmap(states: seq<State>, events: seq<Option<Event>>, i: nat)
    requires Trace(states, events) && states[0] == START && i < |states|
    ensures AllLocked(states[i])
    ensures i < |events| && events[i].Some? && events[i].value.Unmap? ==> events[i].value.unmapped.Err?
  {
    if i > 0 {
      NothingToUnmap(states, events, i - 1);
      assert Moves(states[i - 1], events[i - 1], states[i - 1 + 1]);
      if events[i - 1].Some? {
        LockedStep(states[i - 1], events[i - 1].value, states[i]);
      }
    }
    if i < |events| && events[i].Some? {
      assert Moves(states[i], events[i], states[i + 1]);
      LockedStep(states[i], events[i].value, states[i + 1]);
    }
  }
}
