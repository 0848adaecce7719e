/**
 * Task records of the schedule and the store operation `deleteTodo`.
 *
 * Quantities are whole minutes: `duration` is the length of the task and
 * `start`, once the task is placed, is its start in minutes after midnight
 * (the source's hours `startTime` is `start / 60`).
 */
module Tasks {
  import opened Grid

  /**
   * A task. `color` is the slot of its colour class in the palette: the
   * task with slot `i` carries the CSS class `Palette[i]`.
   */
  datatype Task = Task(id: int, title: string, duration: int, start: Option<int>, color: nat)

  /** The number of colour classes. */
  const PaletteSize: nat := 10

  /** The ten CSS colour classes, in palette order. */
  const Palette: seq<string> := ["color-1", "color-2", "color-3", "color-4", "color-5",
                                 "color-6", "color-7", "color-8", "color-9", "color-10"]

  /**
   * The palette slot for colour counter `c`, `colors[c % colors.length]`,
   * counted down one palette at a time.
   */
  function ColorOf(c: nat): (slot: nat)
    ensures slot < PaletteSize
  {
    if c < PaletteSize then c else ColorOf(c - PaletteSize)
  }

  /** The slot is the counter modulo the palette size. */
  lemma {:induction false} ColorOfIsMod(c: nat)
    ensures ColorOf(c) == c % PaletteSize
  {
    if c >= PaletteSize {
      ColorOfIsMod(c - PaletteSize);
    }
  }

  /**
   * The colour sequence restarts after a full palette, and within one pass
   * through the palette no two tasks share a colour.
   */
  lemma ColorCycle(c: nat)
    ensures ColorOf(c + PaletteSize) == ColorOf(c)
    ensures forall d :: c < d < c + PaletteSize ==> ColorOf(d) != ColorOf(c)
  {
    ColorOfIsMod(c);
    forall d | c < d < c + PaletteSize ensures ColorOf(d) != ColorOf(c) {
      ColorOfIsMod(d);
    }
  }

  /** The palette has one class per slot, and the classes are pairwise distinct. */
  lemma PaletteDistinct()
    ensures |Palette| == PaletteSize
    ensures forall a, b :: 0 <= a < b < PaletteSize ==> Palette[a] != Palette[b]
  {
  }

  /**
   * `todos.filter(todo => todo.id !== id)`: exactly the tasks whose id
   * differs from `id` remain.
   */
  function Without(todos: seq<Task>, id: int): (r: seq<Task>)
    ensures |r| <= |todos|
    ensures forall t :: t in r <==> t in todos && t.id != id
  {
    if todos == [] then []
    else
      var rest := Without(todos[1..], id);
      assert forall t :: t in todos <==> t == todos[0] || t in todos[1..];
      if todos[0].id == id then rest else [todos[0]] + rest
  }

  /**
   * Deletion keeps the order of what remains: it distributes over
   * concatenation, so the survivors of any prefix come before those of the
   * rest.
   */
  lemma {:induction false} WithoutConcat(a: seq<Task>, b: seq<Task>, id: int)
    ensures Without(a + b, id) == Without(a, id) + Without(b, id)
  {
    if a == [] {
      assert a + b == b;
    } else {
      assert (a + b)[1..] == a[1..] + b;
      WithoutConcat(a[1..], b, id);
    }
  }

  /** Deleting an id nobody has changes nothing. */
  lemma {:induction false} WithoutAbsent(todos: seq<Task>, id: int)
    requires forall k :: 0 <= k < |todos| ==> todos[k].id != id
    ensures Without(todos, id) == todos
  {
    if todos != [] {
      WithoutAbsent(todos[1..], id);
      assert [todos[0]] + todos[1..] == todos;
    }
  }

  /** Deleting twice is deleting once. */
  lemma DeleteIdempotent(todos: seq<Task>, id: int)
    ensures Without(Without(todos, id), id) == Without(todos, id)
  {
    var r := Without(todos, id);
    forall k | 0 <= k < |r| ensures r[k].id != id {
      assert r[k] in r;
    }
    WithoutAbsent(r, id);
  }
}
