/** Button presses as paths through a state graph, and the invariant of a FIFO
    breadth-first search over that graph. A machine's state changes by `step(state, button)`;
    a path is a sequence of button numbers. The lemmas here are the steps of the search loop
    in `Factory.Process` and `Factory.ProcessJoltage`: each keeps the invariant `Inv`. */
module Search {

  /** One queue entry: a state and the number of presses it took to get there. */
  datatype Entry<S> = Entry(state: S, depth: nat)

  predicate ValidPath(path: seq<nat>, buttonCount: nat)
  {
    forall k :: 0 <= k < |path| ==> path[k] < buttonCount
  }

  /** The state reached from `s` by pressing the buttons of `path` in order. */
  function Run<S>(step: (S, seq<nat>) -> S, buttons: seq<seq<nat>>, s: S, path: seq<nat>): S
    requires ValidPath(path, |buttons|)
    decreases |path|
  {
    if path == [] then s
    else step(Run(step, buttons, s, path[..|path| - 1]), buttons[path[|path| - 1]])
  }

  ghost predicate ReachableIn<S>(step: (S, seq<nat>) -> S, buttons: seq<seq<nat>>, start: S, t: S, d: nat)
  {
    exists path :: |path| == d && ValidPath(path, |buttons|) && Run(step, buttons, start, path) == t
  }

  ghost predicate Reachable<S>(step: (S, seq<nat>) -> S, buttons: seq<seq<nat>>, start: S, t: S)
  {
    exists path :: ValidPath(path, |buttons|) && Run(step, buttons, start, path) == t
  }

  /** `d` presses take `start` to `t`, and no smaller number of presses does. */
  ghost predicate MinimalDepth<S>(step: (S, seq<nat>) -> S, buttons: seq<seq<nat>>, start: S, t: S, d: nat)
  {
    ReachableIn(step, buttons, start, t, d) && forall k :: 0 <= k < d ==> !ReachableIn(step, buttons, start, t, k)
  }

  /** A minimal depth is unique; when the target is the start it is 0. */
  lemma MinimalDepthUnique<S>(step: (S, seq<nat>) -> S, buttons: seq<seq<nat>>, start: S, t: S, d: nat, e: nat)
    requires MinimalDepth(step, buttons, start, t, d) && MinimalDepth(step, buttons, start, t, e)
    ensures d == e
  {
  }

  lemma MinimalDepthReachable<S>(step: (S, seq<nat>) -> S, buttons: seq<seq<nat>>, start: S, t: S, d: nat)
    requires MinimalDepth(step, buttons, start, t, d)
    ensures Reachable(step, buttons, start, t)
  {
    var path :| |path| == d && ValidPath(path, |buttons|) && Run(step, buttons, start, path) == t;
  }

  lemma StartAtDepthZero<S>(step: (S, seq<nat>) -> S, buttons: seq<seq<nat>>, start: S)
    ensures MinimalDepth(step, buttons, start, start, 0)
  {
    assert ValidPath([], |buttons|) && Run(step, buttons, start, []) == start;
  }

  lemma RunSnoc<S>(step: (S, seq<nat>) -> S, buttons: seq<seq<nat>>, s: S, path: seq<nat>, b: nat)
    requires ValidPath(path, |buttons|) && b < |buttons|
    ensures ValidPath(path + [b], |buttons|)
    ensures Run(step, buttons, s, path + [b]) == step(Run(step, buttons, s, path), buttons[b])
  {
    assert (path + [b])[..|path|] == path;
  }

  function QueueStates<S>(queue: seq<Entry<S>>): set<S>
  {
    set i | 0 <= i < |queue| :: queue[i].state
  }

  function LevelStates<S>(queue: seq<Entry<S>>, d: nat): set<S>
  {
    set i | 0 <= i < |queue| && queue[i].depth == d :: queue[i].state
  }

  /** The entries pushed when `s`, dequeued at depth `d - 1`, is expanded by the first `n` buttons. */
  function Successors<S>(step: (S, seq<nat>) -> S, buttons: seq<seq<nat>>, s: S, d: nat, n: nat): (r: seq<Entry<S>>)
    requires n <= |buttons|
    ensures |r| == n
    ensures forall b :: 0 <= b < n ==> r[b] == Entry(step(s, buttons[b]), d)
  {
    seq(n, b requires 0 <= b < n => Entry(step(s, buttons[b]), d))
  }

  /** FIFO order: the depths in the queue never decrease and span at most two levels. */
  ghost predicate Layered<S>(queue: seq<Entry<S>>, level: nat)
  {
    && (forall i :: 0 <= i < |queue| ==> level <= queue[i].depth <= level + 1)
    && (forall i, j :: 0 <= i < j < |queue| ==> queue[i].depth <= queue[j].depth)
  }

  /** Every queued state is reachable with exactly its recorded number of presses. */
  ghost predicate Sound<S>(step: (S, seq<nat>) -> S, buttons: seq<seq<nat>>, start: S, queue: seq<Entry<S>>)
  {
    forall i :: 0 <= i < |queue| ==> ReachableIn(step, buttons, start, queue[i].state, queue[i].depth)
  }

  /** Every successor of a visited state is visited or waiting in the queue. */
  ghost predicate Expanded<S>(step: (S, seq<nat>) -> S, buttons: seq<seq<nat>>, seen: set<S>, queue: seq<Entry<S>>)
  {
    forall v, b :: v in seen && 0 <= b < |buttons| ==> step(v, buttons[b]) in seen + QueueStates(queue)
  }

  /** Every state reachable in fewer than `level` presses is visited, and every state
      reachable in exactly `level` presses is visited or queued at depth `level`. */
  ghost predicate Complete<S>(step: (S, seq<nat>) -> S, buttons: seq<seq<nat>>, start: S, seen: set<S>, queue: seq<Entry<S>>, level: nat)
  {
    && (forall path :: ValidPath(path, |buttons|) && |path| < level ==> Run(step, buttons, start, path) in seen)
    && (forall path :: ValidPath(path, |buttons|) && |path| == level ==> Run(step, buttons, start, path) in seen + LevelStates(queue, level))
  }

  /** The invariant of the search loop. */
  ghost predicate Inv<S>(step: (S, seq<nat>) -> S, buttons: seq<seq<nat>>, start: S, target: S,
                         queue: seq<Entry<S>>, seen: set<S>, level: nat)
  {
    && Layered(queue, level)
    && Sound(step, buttons, start, queue)
    && Expanded(step, buttons, seen, queue)
    && Complete(step, buttons, start, seen, queue, level)
    && target !in seen
  }

  lemma InvInit<S>(step: (S, seq<nat>) -> S, buttons: seq<seq<nat>>, start: S, target: S)
    ensures Inv(step, buttons, start, target, [Entry(start, 0)], {}, 0)
  {
    var queue := [Entry(start, 0)];
    assert ValidPath([], |buttons|) && Run(step, buttons, start, []) == start;
    assert ReachableIn(step, buttons, start, start, 0);
    forall path | ValidPath(path, |buttons|) && |path| == 0
      ensures Run(step, buttons, start, path) in LevelStates(queue, 0)
    {
      assert path == [];
      assert queue[0].state in LevelStates(queue, 0);
    }
  }

  /** When the front of a layered queue is one level deeper, the whole queue is. */
  lemma NextLevelQueue<S>(queue: seq<Entry<S>>, level: nat)
    requires Layered(queue, level)
    requires queue != [] && queue[0].depth == level + 1
    ensures Layered(queue, level + 1)
    ensures LevelStates(queue, level) == {}
    ensures QueueStates(queue) == LevelStates(queue, level + 1)
  {
    forall i | 0 <= i < |queue| ensures queue[i].depth == level + 1 {
      if i > 0 {
        assert queue[0].depth <= queue[i].depth;
      }
    }
  }

  /** One press after a visited state leads to a state visited or queued. */
  lemma OnePressFurther<S>(step: (S, seq<nat>) -> S, buttons: seq<seq<nat>>, start: S,
                           queue: seq<Entry<S>>, seen: set<S>, path: seq<nat>)
    requires Expanded(step, buttons, seen, queue)
    requires ValidPath(path, |buttons|) && path != []
    requires ValidPath(path[..|path| - 1], |buttons|) && Run(step, buttons, start, path[..|path| - 1]) in seen
    ensures Run(step, buttons, start, path) in seen + QueueStates(queue)
  {
  }

  /** With nothing left at the current level, every state one press further is visited or
      queued at the next level. */
  lemma CompleteLevelUp<S>(step: (S, seq<nat>) -> S, buttons: seq<seq<nat>>, start: S,
                           queue: seq<Entry<S>>, seen: set<S>, level: nat)
    requires Complete(step, buttons, start, seen, queue, level) && Expanded(step, buttons, seen, queue)
    requires LevelStates(queue, level) == {} && QueueStates(queue) == LevelStates(queue, level + 1)
    ensures Complete(step, buttons, start, seen, queue, level + 1)
  {
    forall path | ValidPath(path, |buttons|) && |path| <= level
      ensures Run(step, buttons, start, path) in seen
    {
    }
    forall path | ValidPath(path, |buttons|) && |path| == level + 1
      ensures Run(step, buttons, start, path) in seen + LevelStates(queue, level + 1)
    {
      var p := path[..|path| - 1];
      assert ValidPath(p, |buttons|) && |p| == level;
      OnePressFurther(step, buttons, start, queue, seen, path);
    }
  }

  /** The front of the queue is one level deeper: every state of the current level has
      been dequeued, so the search moves on to the next level. */
  lemma InvLevelUp<S>(step: (S, seq<nat>) -> S, buttons: seq<seq<nat>>, start: S, target: S,
                      queue: seq<Entry<S>>, seen: set<S>, level: nat)
    requires Inv(step, buttons, start, target, queue, seen, level)
    requires queue != [] && queue[0].depth == level + 1
    ensures Inv(step, buttons, start, target, queue, seen, level + 1)
  {
    NextLevelQueue(queue, level);
    CompleteLevelUp(step, buttons, start, queue, seen, level);
  }

  /** Dequeuing a state that was visited before changes nothing else. */
  lemma {:induction false} InvSkip<S>(step: (S, seq<nat>) -> S, buttons: seq<seq<nat>>, start: S, target: S,
                                      queue: seq<Entry<S>>, seen: set<S>, level: nat)
    requires Inv(step, buttons, start, target, queue, seen, level)
    requires queue != [] && queue[0].depth == level && queue[0].state in seen
    ensures Inv(step, buttons, start, target, queue[1..], seen, level)
  {
    var rest := queue[1..];
    assert QueueStates(queue) <= QueueStates(rest) + {queue[0].state} by {
      forall x | x in QueueStates(queue) ensures x in QueueStates(rest) + {queue[0].state} {
        var i :| 0 <= i < |queue| && queue[i].state == x;
        if i > 0 {
          assert rest[i - 1].state == x;
        }
      }
    }
    assert LevelStates(queue, level) <= LevelStates(rest, level) + {queue[0].state} by {
      forall x | x in LevelStates(queue, level) ensures x in LevelStates(rest, level) + {queue[0].state} {
        var i :| 0 <= i < |queue| && queue[i].depth == level && queue[i].state == x;
        if i > 0 {
          assert rest[i - 1].state == x;
        }
      }
    }
  }

  /** Dequeuing an unvisited state other than the target: it becomes visited and its
      successors, one press deeper, join the back of the queue. */
  lemma InvExpand<S>(step: (S, seq<nat>) -> S, buttons: seq<seq<nat>>, start: S, target: S,
                     queue: seq<Entry<S>>, seen: set<S>, level: nat)
    requires Inv(step, buttons, start, target, queue, seen, level)
    requires queue != [] && queue[0].depth == level && queue[0].state !in seen && queue[0].state != target
    ensures Inv(step, buttons, start, target,
                queue[1..] + Successors(step, buttons, queue[0].state, level + 1, |buttons|),
                seen + {queue[0].state}, level)
  {
    var next := queue[1..] + Successors(step, buttons, queue[0].state, level + 1, |buttons|);
    ExpandLayered(step, buttons, queue, level);
    ExpandSound(step, buttons, start, queue, level);
    ExpandExpanded(step, buttons, queue, seen, level + 1);
    ExpandComplete(step, buttons, start, queue, seen, level);
  }

  lemma {:induction false} ExpandLayered<S>(step: (S, seq<nat>) -> S, buttons: seq<seq<nat>>, queue: seq<Entry<S>>, level: nat)
    requires Layered(queue, level)
    requires queue != [] && queue[0].depth == level
    ensures Layered(queue[1..] + Successors(step, buttons, queue[0].state, level + 1, |buttons|), level)
  {
    var rest := queue[1..];
    var next := rest + Successors(step, buttons, queue[0].state, level + 1, |buttons|);
    forall i, j | 0 <= i < j < |next| ensures next[i].depth <= next[j].depth {
      if j < |rest| {
        assert next[i] == queue[i + 1] && next[j] == queue[j + 1];
      } else if i < |rest| {
        assert next[i] == queue[i + 1];
      }
    }
    forall i | 0 <= i < |next| ensures level <= next[i].depth <= level + 1 {
      if i < |rest| {
        assert next[i] == queue[i + 1];
      }
    }
  }

  lemma {:induction false} ExpandSound<S>(step: (S, seq<nat>) -> S, buttons: seq<seq<nat>>, start: S, queue: seq<Entry<S>>, level: nat)
    requires Sound(step, buttons, start, queue)
    requires queue != [] && queue[0].depth == level
    ensures Sound(step, buttons, start, queue[1..] + Successors(step, buttons, queue[0].state, level + 1, |buttons|))
  {
    var s := queue[0].state;
    var rest := queue[1..];
    var next := rest + Successors(step, buttons, s, level + 1, |buttons|);
    assert ReachableIn(step, buttons, start, s, level);
    var p :| |p| == level && ValidPath(p, |buttons|) && Run(step, buttons, start, p) == s;
    forall i | 0 <= i < |next| ensures ReachableIn(step, buttons, start, next[i].state, next[i].depth) {
      if i < |rest| {
        assert next[i] == queue[i + 1];
      } else {
        var b := i - |rest|;
        assert next[i] == Entry(step(s, buttons[b]), level + 1);
        RunSnoc(step, buttons, start, p, b);
        assert |p + [b]| == level + 1;
      }
    }
  }

  lemma QueueStatesConcat<S>(a: seq<Entry<S>>, b: seq<Entry<S>>)
    ensures QueueStates(a + b) == QueueStates(a) + QueueStates(b)
  {
    var ab := a + b;
    forall x | x in QueueStates(ab) ensures x in QueueStates(a) + QueueStates(b) {
      var i :| 0 <= i < |ab| && ab[i].state == x;
      if i >= |a| {
        assert b[i - |a|].state == x;
      }
    }
    forall x | x in QueueStates(a) ensures x in QueueStates(ab) {
      var i :| 0 <= i < |a| && a[i].state == x;
      assert ab[i].state == x;
    }
    forall x | x in QueueStates(b) ensures x in QueueStates(ab) {
      var i :| 0 <= i < |b| && b[i].state == x;
      assert ab[i + |a|].state == x;
    }
  }

  lemma QueueStatesCons<S>(queue: seq<Entry<S>>)
    requires queue != []
    ensures QueueStates(queue) == {queue[0].state} + QueueStates(queue[1..])
  {
    assert queue == [queue[0]] + queue[1..];
    QueueStatesConcat([queue[0]], queue[1..]);
    assert QueueStates([queue[0]]) == {queue[0].state};
  }

  lemma {:induction false} ExpandExpanded<S>(step: (S, seq<nat>) -> S, buttons: seq<seq<nat>>, queue: seq<Entry<S>>, seen: set<S>, d: nat)
    requires Expanded(step, buttons, seen, queue)
    requires queue != []
    ensures Expanded(step, buttons, seen + {queue[0].state}, queue[1..] + Successors(step, buttons, queue[0].state, d, |buttons|))
  {
    var s := queue[0].state;
    var rest := queue[1..];
    var succ := Successors(step, buttons, s, d, |buttons|);
    QueueStatesCons(queue);
    QueueStatesConcat(rest, succ);
    var covered := seen + {s} + QueueStates(rest) + QueueStates(succ);
    forall v, b | v in seen + {s} && 0 <= b < |buttons| ensures step(v, buttons[b]) in covered {
      if v == s {
        assert succ[b].state == step(s, buttons[b]);
      }
    }
  }

  lemma {:induction false} ExpandComplete<S>(step: (S, seq<nat>) -> S, buttons: seq<seq<nat>>, start: S,
                                             queue: seq<Entry<S>>, seen: set<S>, level: nat)
    requires Complete(step, buttons, start, seen, queue, level)
    requires queue != []
    ensures Complete(step, buttons, start, seen + {queue[0].state},
                     queue[1..] + Successors(step, buttons, queue[0].state, level + 1, |buttons|), level)
  {
    var s := queue[0].state;
    var next := queue[1..] + Successors(step, buttons, s, level + 1, |buttons|);
    assert LevelStates(queue, level) <= LevelStates(next, level) + {s} by {
      forall x | x in LevelStates(queue, level) ensures x in LevelStates(next, level) + {s} {
        var i :| 0 <= i < |queue| && queue[i].depth == level && queue[i].state == x;
        if i > 0 {
          assert next[i - 1].state == x && next[i - 1].depth == level;
        }
      }
    }
  }

  /** Pressing any button on a state of `seen` gives a state of `seen`. */
  ghost predicate Closed<S>(step: (S, seq<nat>) -> S, buttons: seq<seq<nat>>, seen: set<S>)
  {
    forall v, b :: v in seen && 0 <= b < |buttons| ==> step(v, buttons[b]) in seen
  }

  /** From a state of a closed set, every sequence of presses stays in the set. */
  lemma {:induction false} RunStaysIn<S>(step: (S, seq<nat>) -> S, buttons: seq<seq<nat>>, start: S, seen: set<S>, path: seq<nat>)
    requires start in seen && Closed(step, buttons, seen)
    requires ValidPath(path, |buttons|)
    ensures Run(step, buttons, start, path) in seen
    decreases |path|
  {
    if path != [] {
      var p, b := path[..|path| - 1], path[|path| - 1];
      assert path == p + [b];
      RunStaysIn(step, buttons, start, seen, p);
      RunSnoc(step, buttons, start, p, b);
    }
  }

  /** When the queue is empty, the start has been visited and the visited states are closed
      under presses. */
  lemma DrainedIsClosed<S>(step: (S, seq<nat>) -> S, buttons: seq<seq<nat>>, start: S, target: S,
                           seen: set<S>, level: nat)
    requires Inv(step, buttons, start, target, [], seen, level)
    ensures start in seen && Closed(step, buttons, seen)
  {
    assert QueueStates<S>([]) == {} && LevelStates<S>([], level) == {};
    assert ValidPath([], |buttons|) && Run(step, buttons, start, []) == start;
  }

  /** When the queue is empty, every state reachable from the start has been visited. */
  lemma ClosedUnderPresses<S>(step: (S, seq<nat>) -> S, buttons: seq<seq<nat>>, start: S, target: S,
                              seen: set<S>, level: nat, path: seq<nat>)
    requires Inv(step, buttons, start, target, [], seen, level)
    requires ValidPath(path, |buttons|)
    ensures Run(step, buttons, start, path) in seen
  {
    DrainedIsClosed(step, buttons, start, target, seen, level);
    RunStaysIn(step, buttons, start, seen, path);
  }

  /** An empty queue means the target cannot be reached. */
  lemma DrainedMeansUnreachable<S>(step: (S, seq<nat>) -> S, buttons: seq<seq<nat>>, start: S, target: S,
                                   seen: set<S>, level: nat)
    requires Inv(step, buttons, start, target, [], seen, level)
    ensures !Reachable(step, buttons, start, target)
  {
    forall path | ValidPath(path, |buttons|) ensures Run(step, buttons, start, path) != target {
      ClosedUnderPresses(step, buttons, start, target, seen, level, path);
    }
  }

  /** Dequeuing the target at the current level: its depth is the minimal number of presses. */
  lemma FoundIsMinimal<S>(step: (S, seq<nat>) -> S, buttons: seq<seq<nat>>, start: S, target: S,
                          queue: seq<Entry<S>>, seen: set<S>, level: nat)
    requires Inv(step, buttons, start, target, queue, seen, level)
    requires queue != [] && queue[0].depth == level && queue[0].state == target
    ensures MinimalDepth(step, buttons, start, target, level)
  {
    assert ReachableIn(step, buttons, start, queue[0].state, queue[0].depth);
    forall p | ValidPath(p, |buttons|) && |p| < level ensures Run(step, buttons, start, p) != target {
      assert Run(step, buttons, start, p) in seen;
    }
  }

  /*** Visited keys ***/

  /** The program remembers visited states by a string key; the key function is one-to-one. */
  ghost predicate Injective<S(!new)>(key: S -> string)
  {
    forall a, b :: key(a) == key(b) ==> a == b
  }

  function Keys<S>(key: S -> string, seen: set<S>): set<string>
  {
    set s | s in seen :: key(s)
  }

  /** With a one-to-one key, a state's key is recorded exactly when the state was seen. */
  lemma KeysMember<S(!new)>(key: S -> string, seen: set<S>, x: S)
    requires Injective(key)
    ensures key(x) in Keys(key, seen) <==> x in seen
  {
    if key(x) in Keys(key, seen) {
      var y :| y in seen && key(y) == key(x);
    }
  }

  lemma KeysAdd<S>(key: S -> string, seen: set<S>, x: S)
    ensures Keys(key, seen + {x}) == Keys(key, seen) + {key(x)}
  {
  }

  /** Before a dequeue: the level of the entry at the front. */
  lemma Advance<S>(step: (S, seq<nat>) -> S, buttons: seq<seq<nat>>, start: S, target: S,
                   queue: seq<Entry<S>>, seen: set<S>, level: nat) returns (next: nat)
    requires Inv(step, buttons, start, target, queue, seen, level)
    requires queue != []
    ensures Inv(step, buttons, start, target, queue, seen, next)
    ensures queue[0].depth == next
  {
    next := level;
    if queue[0].depth != level {
      InvLevelUp(step, buttons, start, target, queue, seen, level);
      next := level + 1;
    }
  }
}
