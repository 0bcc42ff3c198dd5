/** `schedule_bfs` of src/graph/io_graph.rs (lines 59-111): a work queue of
    io nodes, the set of nodes whose children were already dispatched, the
    pending chain results per terminal id, and one `results` value. The
    threads of the source are replaced by computing each chain when it is
    dispatched, so a pending "handle" is the value its thread would return. */
module IoSchedule {
  import opened Seqs
  import opened GraphNodes
  import opened IoPlan

  /** The scheduler's variables between two pops: `bfs_q`, `uuid_to_handles`,
      `scheduled_nodes` and `results`, plus `log`, the ids in the order in
      which their children were dispatched. */
  datatype Sched<!T> = Sched(queue: seq<Id>, pending: map<Id, seq<seq<T>>>, scheduled: set<Id>, results: seq<T>, log: seq<Id>)

  /** Every queued and scheduled id names a node of the arena. */
  ghost predicate Inside<T>(g: IoArena<T>, s: Sched<T>)
  {
    (forall i :: 0 <= i < |s.queue| ==> s.queue[i] in g) && s.scheduled <= g.Keys
  }

  /** The results waiting under `k`, none when `k` has no entry. */
  function Pending<T>(pending: map<Id, seq<seq<T>>>, k: Id): seq<seq<T>>
  {
    if k in pending then pending[k] else []
  }

  /** Whether popping node `k` collects its pending results (lines 73-77):
      `k` is a join or a fork that has an entry, and a join's entry already
      holds one result per parent. */
  predicate Collects<T>(n: IoNode<T>, k: Id, pending: map<Id, seq<seq<T>>>)
  {
    (n.nParents > 1 || n.forkable) && k in pending
      && (n.forkable || (n.nParents > 1 && |pending[k]| == n.nParents))
  }

  /** Step 1 of the loop body (lines 72-85). */
  function Collect<T>(g: IoArena<T>, s: Sched<T>, k: Id): Sched<T>
    requires k in g
  {
    if Collects(g[k], k, s.pending) then s.(results := Flatten(s.pending[k]), pending := s.pending - {k}) else s
  }

  /** The node the plan from `k` ends on (`last_node` of `to_exec_plan`). */
  function Terminal<T>(g: IoArena<T>, k: Id, ghost rank: map<Id, nat>): (t: Id)
    requires k in g && WellFormed(g, rank)
    ensures t in g
  {
    var p := PlanPath(g, k, rank);
    p[|p| - 1]
  }

  /** One child of step 2 (lines 95-107): run the child's plan on the
      current results, append the value under the plan's terminal and queue
      the terminal. */
  function Dispatch<T>(g: IoArena<T>, s: Sched<T>, child: Id, ghost rank: map<Id, nat>): (r: Sched<T>)
    requires child in g && WellFormed(g, rank)
    ensures r.scheduled == s.scheduled && r.log == s.log && r.results == s.results
    ensures r.queue == s.queue + [Terminal(g, child, rank)]
    ensures r.pending.Keys == s.pending.Keys + {Terminal(g, child, rank)}
    ensures forall k :: k != Terminal(g, child, rank) ==> Pending(r.pending, k) == Pending(s.pending, k)
    ensures Pending(r.pending, Terminal(g, child, rank))
      == Pending(s.pending, Terminal(g, child, rank)) + [RunChain(StagesOf(g, PlanPath(g, child, rank)), s.results)]
  {
    var t := Terminal(g, child, rank);
    var v := RunChain(StagesOf(g, PlanPath(g, child, rank)), s.results);
    s.(pending := s.pending[t := Pending(s.pending, t) + [v]], queue := s.queue + [t])
  }

  /** Step 2 for all children, in order: one queue entry per child. */
  function DispatchAll<T>(g: IoArena<T>, s: Sched<T>, cs: seq<Id>, ghost rank: map<Id, nat>): (r: Sched<T>)
    requires WellFormed(g, rank) && forall i :: 0 <= i < |cs| ==> cs[i] in g
    ensures r.scheduled == s.scheduled && r.log == s.log && r.results == s.results
    ensures |r.queue| == |s.queue| + |cs|
    ensures Inside(g, s) ==> Inside(g, r)
    decreases |cs|
  {
    if |cs| == 0 then s else DispatchAll(g, Dispatch(g, s, cs[0], rank), cs[1..], rank)
  }

  /** One iteration of the loop (lines 70-107): pop, collect, then dispatch
      the children unless the node was already scheduled. Popping a node
      changes `results` exactly when it collects, and then to the
      concatenation of its pending results in dispatch order. */
  ghost function Step<T>(g: IoArena<T>, s: Sched<T>, rank: map<Id, nat>): (r: Sched<T>)
    requires |s.queue| > 0 && Inside(g, s) && WellFormed(g, rank)
    ensures Inside(g, r)
    ensures r.results == (if Collects(g[s.queue[0]], s.queue[0], s.pending) then Flatten(s.pending[s.queue[0]]) else s.results)
    ensures s.queue[0] in s.scheduled ==> r.scheduled == s.scheduled && r.log == s.log && r.queue == s.queue[1..]
    ensures s.queue[0] !in s.scheduled ==>
      && r.scheduled == s.scheduled + {s.queue[0]} && r.log == s.log + [s.queue[0]]
      && |r.queue| == |s.queue| - 1 + |g[s.queue[0]].children|
  {
    var k := s.queue[0];
    var c := Collect(g, s.(queue := s.queue[1..]), k);
    if k in c.scheduled then c
    else DispatchAll(g, c.(scheduled := c.scheduled + {k}, log := c.log + [k]), g[k].children, rank)
  }

  /** The loop run until the queue is empty. It terminates because every
      iteration either schedules a new node of the arena or shrinks the queue. */
  ghost function Drain<T>(g: IoArena<T>, s: Sched<T>, rank: map<Id, nat>): (r: Sched<T>)
    requires Inside(g, s) && WellFormed(g, rank)
    ensures |r.queue| == 0
    decreases g.Keys - s.scheduled, |s.queue|
  {
    if |s.queue| == 0 then s else Drain(g, Step(g, s, rank), rank)
  }

  /** The state `schedule_bfs` starts in (lines 60-68): the root queued,
      nothing pending or scheduled, `results` the input. */
  function Start<T>(root: Id, datum: seq<T>): Sched<T>
  {
    Sched([root], map[], {}, datum, [])
  }

  /** What `schedule_bfs` returns. */
  ghost function Schedule<T>(g: IoArena<T>, root: Id, datum: seq<T>, rank: map<Id, nat>): seq<T>
    requires root in g && WellFormed(g, rank)
  {
    Drain(g, Start(root, datum), rank).results
  }

  /** Lines 78-83: `results` cleared and extended with each pending result
      in dispatch order. */
  method Concat<T>(handles: seq<seq<T>>) returns (results: seq<T>)
    ensures results == Flatten(handles)
  {
    results := [];
    for j := 0 to |handles|
      invariant results == Flatten(handles[..j])
    {
      assert handles[..j + 1] == handles[..j] + [handles[j]];
      FlattenAppend(handles[..j], [handles[j]]);
      results := results + handles[j];
    }
    assert handles[..|handles|] == handles;
  }

  /** Lines 95-107 for every child of the popped node: each child's plan is
      built and run, its value appended under the plan's terminal and the
      terminal queued. */
  method DispatchChildren<T>(g: IoArena<T>, queue0: seq<Id>, pending0: map<Id, seq<seq<T>>>, results: seq<T>,
                              ghost s: Sched<T>, cs: seq<Id>, ghost rank: map<Id, nat>)
      returns (queue: seq<Id>, pending: map<Id, seq<seq<T>>>)
    requires s.queue == queue0 && s.pending == pending0 && s.results == results
    requires WellFormed(g, rank) && forall i :: 0 <= i < |cs| ==> cs[i] in g
    ensures DispatchAll(g, s, cs, rank) == s.(queue := queue, pending := pending)
  {
    queue, pending := queue0, pending0;
    for i := 0 to |cs|
      invariant DispatchAll(g, s.(queue := queue, pending := pending), cs[i..], rank) == DispatchAll(g, s, cs, rank)
    {
      var last, chain := ToExecPlan(g, cs[i], rank);
      var v := AsyncExec(chain, results);
      ghost var st := s.(queue := queue, pending := pending);
      assert last == Terminal(g, cs[i], rank);
      assert Dispatch(g, st, cs[i], rank) == st.(pending := pending[last := Pending(pending, last) + [v]], queue := queue + [last]);
      assert cs[i..][1..] == cs[i + 1..];
      queue, pending := queue + [last], pending[last := Pending(pending, last) + [v]];
    }
  }

  /** `schedule_bfs` (lines 59-111), proved to compute `Schedule`. */
  method ScheduleBfs<T>(g: IoArena<T>, root: Id, datum: seq<T>, ghost rank: map<Id, nat>) returns (results: seq<T>)
    requires root in g && WellFormed(g, rank)
    ensures results == Schedule(g, root, datum, rank)
  {
    var queue := [root];
    var pending: map<Id, seq<seq<T>>> := map[];
    var scheduled: set<Id> := {};
    results := datum;
    ghost var log: seq<Id> := [];
    while |queue| > 0
      invariant Inside(g, Sched(queue, pending, scheduled, results, log))
      invariant Drain(g, Sched(queue, pending, scheduled, results, log), rank) == Drain(g, Start(root, datum), rank)
      decreases g.Keys - scheduled, |queue|
    {
      ghost var s := Sched(queue, pending, scheduled, results, log);
      var node := queue[0];
      queue := queue[1..];
      if Collects(g[node], node, pending) {
        results := Concat(pending[node]);
        pending := pending - {node};
      }
      if node in scheduled {
        assert Sched(queue, pending, scheduled, results, log) == Step(g, s, rank);
        continue;
      }
      scheduled := scheduled + {node};
      log := log + [node];
      queue, pending := DispatchChildren(g, queue, pending, results, Sched(queue, pending, scheduled, results, log), g[node].children, rank);
      assert Sched(queue, pending, scheduled, results, log) == Step(g, s, rank);
    }
  }

  /** Children are dispatched for a node at most once: along the whole run
      the log of scheduled nodes never repeats an id, only grows, and holds
      exactly the scheduled set. */
  lemma {:induction false} DrainSchedulesOnce<T>(g: IoArena<T>, s: Sched<T>, rank: map<Id, nat>)
    requires Inside(g, s) && WellFormed(g, rank)
    requires NoDup(s.log) && Elems(s.log) == s.scheduled
    ensures NoDup(Drain(g, s, rank).log) && Elems(Drain(g, s, rank).log) == Drain(g, s, rank).scheduled
    ensures s.log <= Drain(g, s, rank).log
    decreases g.Keys - s.scheduled, |s.queue|
  {
    if |s.queue| > 0 {
      var r := Step(g, s, rank);
      if s.queue[0] !in s.scheduled {
        NoDupPush(s.log, s.queue[0]);
      }
      DrainSchedulesOnce(g, r, rank);
    }
  }

  /** Over a whole call every id is scheduled at most once. */
  lemma ScheduleOnce<T>(g: IoArena<T>, root: Id, datum: seq<T>, rank: map<Id, nat>)
    requires root in g && WellFormed(g, rank)
    ensures NoDup(Drain(g, Start(root, datum), rank).log)
    ensures Elems(Drain(g, Start(root, datum), rank).log) == Drain(g, Start(root, datum), rank).scheduled
  {
    ElemsEmpty(Start(root, datum).log);
    DrainSchedulesOnce(g, Start(root, datum), rank);
  }

  /** Without forks and joins nothing is ever collected, so the results stay
      what they were. */
  lemma {:induction false} DrainKeepsResults<T>(g: IoArena<T>, s: Sched<T>, rank: map<Id, nat>)
    requires Inside(g, s) && WellFormed(g, rank)
    requires forall k :: k in g ==> !g[k].forkable && g[k].nParents <= 1
    ensures Drain(g, s, rank).results == s.results
    decreases g.Keys - s.scheduled, |s.queue|
  {
    if |s.queue| > 0 {
      DrainKeepsResults(g, Step(g, s, rank), rank);
    }
  }

  /** A graph without forks and joins returns its input unchanged: the
      root's transform is never applied (line 68) and values that reach a
      plain sink are never collected (lines 73-77). */
  lemma LinearReturnsInput<T>(g: IoArena<T>, root: Id, datum: seq<T>, rank: map<Id, nat>)
    requires root in g && WellFormed(g, rank)
    requires forall k :: k in g ==> !g[k].forkable && g[k].nParents <= 1
    ensures Schedule(g, root, datum, rank) == datum
  {
    DrainKeepsResults(g, Start(root, datum), rank);
  }

  /** Every dispatched value ends with the transform of its terminal: a
      plan includes the fork or join it stops at (lines 137-141), so a join
      applies its transform once per incoming branch, before the branches
      are concatenated. */
  lemma DispatchEndsWithTerminal<T>(g: IoArena<T>, child: Id, d: seq<T>, rank: map<Id, nat>)
    requires child in g && WellFormed(g, rank)
    ensures var p := PlanPath(g, child, rank);
      RunChain(StagesOf(g, p), d) == g[Terminal(g, child, rank)].f(RunChain(StagesOf(g, p[..|p| - 1]), d))
  {
    var p := PlanPath(g, child, rank);
    var st := StagesOf(g, p);
    assert st[..|st| - 1] == StagesOf(g, p[..|p| - 1]);
  }
}
