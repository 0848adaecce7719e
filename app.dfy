/**
 * The `ScheduleApp` state and its operations: compiling the memo into
 * tasks, deleting a task, the render pass that places every task and lays
 * out its box, and the drag handlers of one box.
 */
module App {
  import opened Grid
  import opened Text
  import opened Duration
  import opened Tasks
  import opened Memo
  import opened Placement
  import opened Drag

  /**
   * One rendered box: the task's id, `top` and `height` in px (minutes), its
   * title and its colour slot. Its duration text is `BoxLabel`.
   */
  datatype Box = Box(id: int, top: int, height: int, title: string, color: nat)

  /** The duration text of a box, written from its height. */
  function BoxLabel(b: Box): string {
    DurationLabel(b.height)
  }

  /** The box of a placed task: its offset from the wake time, its length, its title and colour. */
  function BoxOf(t: Task, wake: int): (b: Box)
    requires t.start.Some?
    ensures StartAt(wake, b.top) == t.start.value
    ensures b.height == t.duration && b.id == t.id && b.title == t.title && b.color == t.color
  {
    Box(t.id, t.start.value - wake * MinutesPerHour, t.duration, t.title, t.color)
  }

  /** Every task of the list is placed. */
  predicate AllPlaced(todos: seq<Task>) {
    forall j :: 0 <= j < |todos| ==> todos[j].start.Some?
  }

  /**
   * The commit of a release: the task the handler was made for gets the
   * start `wake * 60 + top`; when the list no longer holds that task at that
   * index nothing changes.
   */
  function Commit(todos: seq<Task>, index: nat, id: int, top: Option<int>, wake: int): seq<Task>
  {
    if top.Some? && index < |todos| && todos[index].id == id
    then todos[index := todos[index].(start := Some(StartAt(wake, top.value)))]
    else todos
  }

  /**
   * A commit moves only the dragged task, and the next render draws its box
   * exactly at the committed top.
   */
  lemma CommitMovesOne(todos: seq<Task>, index: nat, id: int, top: int, wake: int)
    requires index < |todos| && todos[index].id == id
    ensures var r := Commit(todos, index, id, Some(top), wake);
      |r| == |todos|
      && (forall j :: 0 <= j < |todos| && j != index ==> r[j] == todos[j])
      && SameTask(todos[index].(start := None), r[index])
      && BoxOf(r[index], wake).top == top
  {
  }

  /** Deleting from a rendered list leaves every remaining task where it was. */
  lemma DeleteKeepsPlacement(todos: seq<Task>, id: int, wake: int, sleep: int)
    requires AllPlaced(todos)
    ensures Rendered(Without(todos, id), wake, sleep) == Without(todos, id)
  {
    var r := Without(todos, id);
    forall j | 0 <= j < |r| ensures r[j].start.Some? {
      assert r[j] in r;
      var k :| 0 <= k < |todos| && todos[k] == r[j];
    }
    RenderIdentity(r, wake, sleep);
  }

  class ScheduleApp {
    var todos: seq<Task>
    var memoText: string
    var wakeTime: int
    var sleepTime: int
    var colorIndex: nat

    /** A fresh application: no tasks, an empty memo, a day from 6:00 to 23:00. */
    constructor ()
      ensures todos == [] && memoText == "" && colorIndex == 0
      ensures wakeTime == 6 && sleepTime == 23
    {
      todos := [];
      memoText := "";
      wakeTime := 6;
      sleepTime := 23;
      colorIndex := 0;
    }

    /**
     * The `forEach` callback on line `index`: an empty line or one without
     * a space is dropped, any other line is split at its last space, and a
     * line that is kept yields a valid entry. `parsed` names the readings of
     * all the lines.
     */
    method ParseLineAt(lines: seq<string>, ghost parsed: seq<Option<Entry>>, index: nat) returns (entry: Option<Entry>)
      requires index < |lines| == |parsed|
      requires forall j {:trigger ParseLine(lines[j])} :: 0 <= j < |lines| ==> parsed[j] == ParseLine(lines[j])
      ensures entry == parsed[index]
      ensures entry.Some? ==> ValidEntry(entry.value)
      ensures Trim(lines[index]) == [] || ' ' !in Trim(lines[index]) ==> entry.None?
      ensures forall k :: LastSpaceAt(Trim(lines[index]), k) ==> entry == SplitAt(Trim(lines[index]), k)
    {
      entry := ParseLine(lines[index]);
      ParseLineValid(lines[index]);
      if ' ' !in Trim(lines[index]) {
        ParseLineNoSpace(lines[index]);
      }
      forall k | LastSpaceAt(Trim(lines[index]), k) ensures entry == SplitAt(Trim(lines[index]), k) {
        ParseLineSplit(lines[index], k);
      }
    }

    /**
     * The `forEach` of `parseTodoMemo` over the lines: one task per accepted
     * line, in line order, with id `idBase + index`, coloured from
     * `colorIndex`, which advances once per task.
     */
    method CompileLines(lines: seq<string>, ghost parsed: seq<Option<Entry>>, idBase: int) returns (result: seq<Task>)
      requires |lines| == |parsed|
      requires forall j {:trigger ParseLine(lines[j])} :: 0 <= j < |lines| ==> parsed[j] == ParseLine(lines[j])
      modifies this`colorIndex
      ensures result == CompileFrom(parsed, 0, idBase, old(colorIndex))
      ensures colorIndex == old(colorIndex) + |result|
    {
      result := [];
      var index := 0;
      while index < |lines|
        invariant 0 <= index <= |lines|
        invariant result + CompileFrom(parsed, index, idBase, colorIndex) == CompileFrom(parsed, 0, idBase, old(colorIndex))
        invariant colorIndex == old(colorIndex) + |result|
      {
        var entry := ParseLineAt(lines, parsed, index);
        if entry.Some? {
          var todo := Task(idBase + index, entry.value.title, entry.value.duration, None, ColorOf(colorIndex));
          ghost var rest := CompileFrom(parsed, index + 1, idBase, colorIndex + 1);
          assert CompileFrom(parsed, index, idBase, colorIndex) == [todo] + rest;
          assert result + ([todo] + rest) == (result + [todo]) + rest;
          result := result + [todo];
          colorIndex := colorIndex + 1;
        } else {
          assert CompileFrom(parsed, index, idBase, colorIndex) == CompileFrom(parsed, index + 1, idBase, colorIndex);
        }
        index := index + 1;
      }
    }

    /** `parseTodoMemo`: split the memo into lines and compile them. */
    method ParseTodoMemo(memo: string, idBase: int) returns (result: seq<Task>)
      modifies this`colorIndex
      ensures result == Compile(memo, idBase, old(colorIndex))
      ensures colorIndex == old(colorIndex) + |result|
    {
      var lines := SplitLines(memo);
      forall j | 0 <= j < |lines| ensures ParsedLines(lines)[j] == ParseLine(lines[j]) {
        ParsedLinesAt(lines, j);
      }
      result := CompileLines(lines, ParsedLines(lines), idBase);
    }

    /**
     * `findAvailablePosition`: the scan over candidate offsets in steps of
     * 15, each checked against every other placed task.
     */
    method FindAvailablePosition(newTodo: Task) returns (position: int)
      ensures position == FindPosition(todos, newTodo, wakeTime, sleepTime)
    {
      var maxPosition := MaxOffset(wakeTime, sleepTime, newTodo.duration);
      var pos := 0;
      while pos <= maxPosition
        invariant Candidate(pos)
        invariant Search(todos, newTodo, wakeTime, sleepTime) == SearchFrom(todos, newTodo, wakeTime, maxPosition, pos)
        decreases maxPosition - pos
      {
        var newStart := StartAt(wakeTime, pos);
        var newEnd := newStart + newTodo.duration;
        var hasOverlap := false;
        var j := 0;
        while j < |todos|
          invariant 0 <= j <= |todos| && !hasOverlap
          invariant forall i :: 0 <= i < j ==> !Blocks(todos[i], newTodo, wakeTime, pos)
        {
          var todo := todos[j];
          if todo.id != newTodo.id && todo.start.Some? {
            var existingEnd := todo.start.value + todo.duration;
            if !(newEnd <= todo.start.value || newStart >= existingEnd) {
              hasOverlap := true;
              break;
            }
          }
          j := j + 1;
        }
        if !hasOverlap {
          position := pos;
          return;
        }
        assert !FreeAt(todos, newTodo, wakeTime, pos) by {
          assert Blocks(todos[j], newTodo, wakeTime, pos);
        }
        pos := pos + Step;
      }
      position := 0;
    }

    /**
     * `renderTodos`: in array order, a placed task keeps its start and an
     * unplaced one is placed by `findAvailablePosition` over the list as it
     * stands; each task gets a box at its offset from the wake time.
     */
    method RenderTodos() returns (boxes: seq<Box>)
      modifies this`todos
      ensures todos == Rendered(old(todos), wakeTime, sleepTime)
      ensures AllPlaced(todos) && |boxes| == |todos|
      ensures forall j :: 0 <= j < |todos| ==> boxes[j] == BoxOf(todos[j], wakeTime)
    {
      ghost var s := todos;
      boxes := [];
      var i := 0;
      while i < |todos|
        invariant |todos| == |s| && 0 <= i <= |todos| && |boxes| == i
        invariant todos == Stage(s, i, wakeTime, sleepTime)
        invariant forall j :: 0 <= j < i ==> todos[j].start.Some? && boxes[j] == BoxOf(todos[j], wakeTime)
      {
        StageFacts(s, i, wakeTime, sleepTime);
        var todo := todos[i];
        var top: int;
        if todo.start.Some? {
          top := todo.start.value - wakeTime * MinutesPerHour;
        } else {
          var position := FindAvailablePosition(todo);
          top := position;
          todos := todos[i := todo.(start := Some(StartAt(wakeTime, position)))];
        }
        boxes := boxes + [Box(todo.id, top, todo.duration, todo.title, todo.color)];
        i := i + 1;
      }
      StageFacts(s, |s|, wakeTime, sleepTime);
    }

    /**
     * `updateTodosFromMemo`: keep the memo, reset the colour counter, replace
     * the tasks by the compiled memo, and render.
     */
    method UpdateTodosFromMemo(memo: string, idBase: int) returns (boxes: seq<Box>)
      modifies this
      ensures memoText == memo && wakeTime == old(wakeTime) && sleepTime == old(sleepTime)
      ensures todos == Rendered(Compile(memo, idBase, 0), wakeTime, sleepTime)
      ensures colorIndex == |Compile(memo, idBase, 0)|
      ensures AllPlaced(todos) && |boxes| == |todos|
      ensures forall j :: 0 <= j < |todos| ==> boxes[j] == BoxOf(todos[j], wakeTime)
    {
      memoText := memo;
      colorIndex := 0;
      todos := ParseTodoMemo(memoText, idBase);
      boxes := RenderTodos();
    }

    /** `deleteTodo`: drop every task with that id, then render. */
    method DeleteTodo(id: int) returns (boxes: seq<Box>)
      modifies this`todos
      ensures todos == Rendered(Without(old(todos), id), wakeTime, sleepTime)
      ensures AllPlaced(todos) && |boxes| == |todos|
      ensures forall j :: 0 <= j < |todos| ==> boxes[j] == BoxOf(todos[j], wakeTime)
    {
      todos := Without(todos, id);
      boxes := RenderTodos();
    }
  }

  /**
   * The handlers `attachDragEvents` attaches to the box of one task: the
   * closure state of the gesture and the box's `style.top`. The task is the
   * one at `index` with id `id` in the list the box was rendered from.
   */
  class DragHandler {
    const app: ScheduleApp
    const index: nat
    const id: int
    const duration: int
    var isDragging: bool
    var startY: int
    var startTop: int
    var top: int

    /** The gesture state of the handlers. */
    function State(): Gesture
      reads this
    {
      Gesture(isDragging, startY, startTop, top)
    }

    /** `(sleepTime - wakeTime) * 60 - duration * 60`, read when the event arrives. */
    function MaxTop(): int
      reads this, app
    {
      MaxOffset(app.wakeTime, app.sleepTime, duration)
    }

    /**
     * The handlers `attachDragEvents` adds to the box of the task at `index`,
     * once that task has a start: not dragging, and the box at the task's
     * rendered top.
     */
    constructor (app: ScheduleApp, index: nat)
      requires index < |app.todos| && app.todos[index].start.Some?
      ensures this.app == app && this.index == index
      ensures id == app.todos[index].id && duration == app.todos[index].duration
      ensures top == BoxOf(app.todos[index], app.wakeTime).top
      ensures State() == Gesture(false, 0, 0, BoxOf(app.todos[index], app.wakeTime).top)
    {
      this.app := app;
      this.index := index;
      this.id := app.todos[index].id;
      this.duration := app.todos[index].duration;
      isDragging := false;
      startY := 0;
      startTop := 0;
      top := BoxOf(app.todos[index], app.wakeTime).top;
    }

    /** touchstart / mousedown at pointer `y`. */
    method Press(y: int)
      modifies this
      ensures State() == OnPress(old(State()), y)
    {
      isDragging := true;
      startY := y;
      startTop := top;
    }

    /** touchmove / mousemove at pointer `y`. */
    method Move(y: int)
      modifies this
      ensures State() == OnMove(old(State()), y, MaxTop())
    {
      if !isDragging {
        return;
      }
      var deltaY := y - startY;
      var newTop := Snap(startTop + deltaY);
      var maxTop := MaxOffset(app.wakeTime, app.sleepTime, duration);
      newTop := ClampTop(newTop, maxTop);
      top := newTop;
    }

    /** touchend / mouseup: end the gesture and write the new start into the task. */
    method Release()
      modifies this, app`todos
      ensures State() == OnRelease(old(State())).0
      ensures app.todos == Commit(old(app.todos), index, id, OnRelease(old(State())).1, app.wakeTime)
    {
      if !isDragging {
        return;
      }
      isDragging := false;
      var newTop := top;
      if index < |app.todos| && app.todos[index].id == id {
        var todo := app.todos[index];
        app.todos := app.todos[index := todo.(start := Some(StartAt(app.wakeTime, newTop)))];
      }
    }
  }
}
