/**
 * Automatic placement of the render pass: `findAvailablePosition` scans the
 * day from the wake time in 15-minute steps for the first slot where a task
 * overlaps no other placed task, and `renderTodos` places every unplaced
 * task there, one after the other, each placement visible to the next.
 *
 * Offsets (`pos`, the box `top`) are minutes after the wake time; starts
 * are minutes after midnight, so a task placed at `pos` starts at
 * `wake * 60 + pos`.
 */
module Placement {
  import opened Grid
  import opened Tasks

  /**
   * The half-open intervals [s1, e1) and [s2, e2) overlap: the negation of
   * "one ends before the other starts". Touching intervals do not overlap.
   */
  predicate Overlaps(s1: int, e1: int, s2: int, e2: int) {
    !(e1 <= s2 || s1 >= e2)
  }

  /** Minute `m` lies in the half-open interval [s, e). */
  predicate During(m: int, s: int, e: int) {
    s <= m < e
  }

  /**
   * For non-empty intervals, the overlap test agrees with its meaning: some
   * minute lies in both intervals.
   */
  lemma OverlapsMeansSharedMinute(s1: int, e1: int, s2: int, e2: int)
    requires s1 < e1 && s2 < e2
    ensures Overlaps(s1, e1, s2, e2) <==> exists m :: During(m, s1, e1) && During(m, s2, e2)
  {
    if Overlaps(s1, e1, s2, e2) {
      var m := if s1 < s2 then s2 else s1;
      assert During(m, s1, e1) && During(m, s2, e2);
    }
  }

  /** In minutes, [0, 60) and [60, 120) do not overlap; [0, 60) and [30, 90) do. */
  lemma OverlapExamples()
    ensures !Overlaps(0, 60, 60, 120)
    ensures Overlaps(0, 60, 30, 90)
  {
  }

  /** The start, in minutes after midnight, of a task placed at offset `pos`. */
  function StartAt(wake: int, pos: int): int {
    wake * MinutesPerHour + pos
  }

  /**
   * `other` stands in the way of placing `t` at offset `pos`: it is another
   * task (a different id), it is placed, and its interval overlaps
   * [start, start + t.duration).
   */
  predicate Blocks(other: Task, t: Task, wake: int, pos: int) {
    other.id != t.id && other.start.Some?
    && Overlaps(StartAt(wake, pos), StartAt(wake, pos) + t.duration,
                other.start.value, other.start.value + other.duration)
  }

  /** No task of `todos` stands in the way of `t` at offset `pos`. */
  predicate FreeAt(todos: seq<Task>, t: Task, wake: int, pos: int) {
    forall j :: 0 <= j < |todos| ==> !Blocks(todos[j], t, wake, pos)
  }

  /** A candidate offset of the scan: a non-negative multiple of the step. */
  predicate Candidate(pos: int) {
    pos >= 0 && pos % Step == 0
  }

  /**
   * The scan from candidate `pos` to `maxPos`: the first free candidate, or
   * `None` when every candidate up to `maxPos` is taken.
   */
  function SearchFrom(todos: seq<Task>, t: Task, wake: int, maxPos: int, pos: int): (r: Option<int>)
    requires Candidate(pos)
    ensures r.Some? ==> var p := r.value;
      Candidate(p) && pos <= p <= maxPos && FreeAt(todos, t, wake, p)
      && forall q :: pos <= q < p && Candidate(q) ==> !FreeAt(todos, t, wake, q)
    ensures r.None? ==> forall q :: pos <= q <= maxPos && Candidate(q) ==> !FreeAt(todos, t, wake, q)
    decreases maxPos - pos
  {
    if pos > maxPos then None
    else if FreeAt(todos, t, wake, pos) then Some(pos)
    else
      var r := SearchFrom(todos, t, wake, maxPos, pos + Step);
      assert forall q :: pos <= q < pos + Step && Candidate(q) ==> q == pos;
      r
  }

  /** The scan of `findAvailablePosition`, over all candidates up to the bound of the day. */
  function Search(todos: seq<Task>, t: Task, wake: int, sleep: int): Option<int>
  {
    SearchFrom(todos, t, wake, MaxOffset(wake, sleep, t.duration), 0)
  }

  /** `findAvailablePosition`: the first free candidate, and 0 when there is none. */
  function FindPosition(todos: seq<Task>, t: Task, wake: int, sleep: int): int
  {
    match Search(todos, t, wake, sleep)
    case Some(p) => p
    case None => 0
  }

  /**
   * The position is the first free candidate offset up to the largest offset
   * at which the task still ends by the sleep time; when every candidate is
   * taken (or the task is longer than the day) it is 0, the top of the day.
   * Either way it is a multiple of the step inside [0, max(0, maxPos)].
   */
  lemma FindPositionSpec(todos: seq<Task>, t: Task, wake: int, sleep: int)
    ensures var p, maxPos := FindPosition(todos, t, wake, sleep), MaxOffset(wake, sleep, t.duration);
      && Candidate(p) && (p == 0 || p <= maxPos)
      && (Search(todos, t, wake, sleep).Some? ==>
            FreeAt(todos, t, wake, p)
            && forall q :: 0 <= q < p && Candidate(q) ==> !FreeAt(todos, t, wake, q))
      && (Search(todos, t, wake, sleep).None? ==>
            p == 0 && forall q :: 0 <= q <= maxPos && Candidate(q) ==> !FreeAt(todos, t, wake, q))
  {
  }

  /** A day with no placed task puts every task at its top. */
  lemma EmptyDayPlacesAtTop(todos: seq<Task>, t: Task, wake: int, sleep: int)
    requires MaxOffset(wake, sleep, t.duration) >= 0
    requires forall j :: 0 <= j < |todos| ==> todos[j].start.None? || todos[j].id == t.id
    ensures Search(todos, t, wake, sleep) == Some(0)
    ensures FindPosition(todos, t, wake, sleep) == 0
  {
    assert FreeAt(todos, t, wake, 0);
  }

  // ---- The render pass -------------------------------------------------------

  /**
   * `createTodoBox` for the k-th task: a placed task keeps its start; an
   * unplaced one is placed at `findAvailablePosition` over the current list.
   */
  function PlaceTask(todos: seq<Task>, k: nat, wake: int, sleep: int): seq<Task>
    requires k < |todos|
  {
    if todos[k].start.Some? then todos
    else todos[k := todos[k].(start := Some(StartAt(wake, FindPosition(todos, todos[k], wake, sleep))))]
  }

  /** The list after the first `k` boxes of the render pass were created. */
  function Stage(s: seq<Task>, k: nat, wake: int, sleep: int): (r: seq<Task>)
    requires k <= |s|
    ensures |r| == |s|
  {
    if k == 0 then s else PlaceTask(Stage(s, k - 1, wake, sleep), k - 1, wake, sleep)
  }

  /** The list after `renderTodos`. */
  function Rendered(s: seq<Task>, wake: int, sleep: int): seq<Task>
  {
    Stage(s, |s|, wake, sleep)
  }

  /** Placement only writes a start, and only to a task that had none. */
  predicate SameTask(a: Task, b: Task) {
    a.id == b.id && a.title == b.title && a.duration == b.duration && a.color == b.color
    && (a.start.Some? ==> b.start == a.start)
  }

  /**
   * After `k` boxes: the first `k` tasks are placed, the rest are untouched,
   * no task changes anything but its start, and a task that was placed keeps
   * its start.
   */
  lemma {:induction false} StageFacts(s: seq<Task>, k: nat, wake: int, sleep: int)
    requires k <= |s|
    ensures forall j :: 0 <= j < k ==> Stage(s, k, wake, sleep)[j].start.Some?
    ensures forall j :: k <= j < |s| ==> Stage(s, k, wake, sleep)[j] == s[j]
    ensures forall j :: 0 <= j < |s| ==> SameTask(s[j], Stage(s, k, wake, sleep)[j])
  {
    if k > 0 {
      StageFacts(s, k - 1, wake, sleep);
    }
  }

  /** Once placed at stage `k`, a task keeps its start for the rest of the pass. */
  lemma {:induction false} StageStable(s: seq<Task>, k: nat, n: nat, wake: int, sleep: int)
    requires k <= n <= |s|
    ensures forall j :: 0 <= j < |s| && Stage(s, k, wake, sleep)[j].start.Some? ==>
      Stage(s, n, wake, sleep)[j] == Stage(s, k, wake, sleep)[j]
    decreases n - k
  {
    if k < n {
      StageStable(s, k + 1, n, wake, sleep);
    }
  }

  /**
   * `renderTodos` places every task, changes nothing but the starts of
   * tasks that had none, and leaves placed tasks where they are.
   */
  lemma RenderPlacesAll(s: seq<Task>, wake: int, sleep: int)
    ensures |Rendered(s, wake, sleep)| == |s|
    ensures forall j :: 0 <= j < |s| ==> Rendered(s, wake, sleep)[j].start.Some?
    ensures forall j :: 0 <= j < |s| ==> SameTask(s[j], Rendered(s, wake, sleep)[j])
  {
    StageFacts(s, |s|, wake, sleep);
  }

  /** Rendering a fully placed list changes nothing: rendering is idempotent. */
  lemma RenderIdentity(s: seq<Task>, wake: int, sleep: int)
    requires forall j :: 0 <= j < |s| ==> s[j].start.Some?
    ensures Rendered(s, wake, sleep) == s
  {
    var r := Rendered(s, wake, sleep);
    StageFacts(s, |s|, wake, sleep);
    assert forall j :: 0 <= j < |s| ==> r[j] == s[j];
  }

  /** Rendering twice is rendering once. */
  lemma RenderIdempotent(s: seq<Task>, wake: int, sleep: int)
    ensures Rendered(Rendered(s, wake, sleep), wake, sleep) == Rendered(s, wake, sleep)
  {
    RenderPlacesAll(s, wake, sleep);
    RenderIdentity(Rendered(s, wake, sleep), wake, sleep);
  }

  /**
   * A task the pass placed by a successful scan overlaps no other task that
   * was placed before it (an earlier box of the pass, or a task that was
   * already placed), in the final list.
   */
  lemma RenderNoOverlap(s: seq<Task>, k: nat, wake: int, sleep: int)
    requires k < |s| && s[k].start.None?
    requires Search(Stage(s, k, wake, sleep), s[k], wake, sleep).Some?
    ensures var r, p := Rendered(s, wake, sleep), Search(Stage(s, k, wake, sleep), s[k], wake, sleep).value;
      r[k].start == Some(StartAt(wake, p))
      && forall j :: 0 <= j < |s| && (j < k || s[j].start.Some?) ==> !Blocks(r[j], r[k], wake, p)
  {
    var before := Stage(s, k, wake, sleep);
    var p := Search(before, s[k], wake, sleep).value;
    StageFacts(s, k, wake, sleep);
    StageFacts(s, k + 1, wake, sleep);
    var after := Stage(s, k + 1, wake, sleep);
    assert before[k] == s[k];
    assert after == before[k := before[k].(start := Some(StartAt(wake, p)))];
    StageStable(s, k + 1, |s|, wake, sleep);
    StageStable(s, k, |s|, wake, sleep);
    var r := Rendered(s, wake, sleep);
    assert r[k] == after[k];
    forall j | 0 <= j < |s| && (j < k || s[j].start.Some?) ensures !Blocks(r[j], r[k], wake, p) {
      assert before[j].start.Some?;
      assert r[j] == before[j];
      assert !Blocks(before[j], s[k], wake, p);
    }
  }

  /**
   * Two unplaced one-hour tasks in a day with room for both: the render pass
   * puts the first at the top of the day and the second right after it.
   */
  lemma TwoHourTasks(t1: Task, t2: Task, wake: int, sleep: int)
    requires t1.start.None? && t2.start.None? && t1.id != t2.id
    requires t1.duration == MinutesPerHour && t2.duration == MinutesPerHour
    requires MaxOffset(wake, sleep, MinutesPerHour) >= MinutesPerHour
    ensures Rendered([t1, t2], wake, sleep)
      == [t1.(start := Some(StartAt(wake, 0))), t2.(start := Some(StartAt(wake, MinutesPerHour)))]
  {
    var s := [t1, t2];
    var maxPos := MaxOffset(wake, sleep, MinutesPerHour);
    EmptyDayPlacesAtTop(s, t1, wake, sleep);
    var s1 := [t1.(start := Some(StartAt(wake, 0))), t2];
    assert Stage(s, 1, wake, sleep) == s1;
    var r := Search(s1, t2, wake, sleep);
    assert FreeAt(s1, t2, wake, MinutesPerHour);
    forall q | 0 <= q < MinutesPerHour && Candidate(q) ensures !FreeAt(s1, t2, wake, q) {
      assert Blocks(s1[0], t2, wake, q);
    }
    assert r == Some(MinutesPerHour);
  }
}
