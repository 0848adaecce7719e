/**
 * The memo compiler of `ScheduleApp.parseTodoMemo`: one task per memo line
 * `<title> <duration>`, the line being split at its last ASCII space.
 */
module Memo {
  import opened Grid
  import opened Text
  import opened Duration
  import opened Tasks

  /** What one accepted memo line contributes: its title and its duration in minutes. */
  datatype Entry = Entry(title: string, duration: nat)

  /** `k` is the position of the last ASCII space of `line`. */
  predicate LastSpaceAt(line: string, k: int) {
    0 <= k < |line| && line[k] == ' ' && forall i :: k < i < |line| ==> line[i] != ' '
  }

  /**
   * The entry of a trimmed line split at position `k`: the trimmed text
   * before `k` is the title and the trimmed text after it the duration token.
   * The line is accepted when the title is non-empty and the token parses to
   * a positive duration; a `null` or zero duration drops it.
   */
  function SplitAt(line: string, k: nat): Option<Entry>
    requires k < |line|
  {
    var title := Trim(line[..k]);
    var duration := ParseTimeString(Trim(line[k + 1..]));
    if title != [] && duration.Some? && duration.value > 0 then Some(Entry(title, duration.value))
    else None
  }

  /**
   * The body of the `forEach` callback of `parseTodoMemo`: trim the line,
   * find its last space and split there. Empty lines and lines without a
   * space are dropped.
   */
  function ParseLine(raw: string): Option<Entry>
  {
    var line := Trim(raw);
    if line == [] then None
    else
      var k := LastIndexOf(line, ' ');
      if k == -1 then None else SplitAt(line, k)
  }

  /** A line without an ASCII space (after trimming) contributes nothing. */
  lemma ParseLineNoSpace(raw: string)
    requires ' ' !in Trim(raw)
    ensures ParseLine(raw) == None
  {
  }

  /** `lastIndexOf(' ')` finds the last space, whichever way it is described. */
  lemma LastSpaceFound(line: string, k: int)
    requires LastSpaceAt(line, k)
    ensures LastIndexOf(line, ' ') == k
  {
  }

  /** A line whose trimmed text has its last space at `k` is split exactly there. */
  lemma ParseLineSplit(raw: string, k: nat)
    requires LastSpaceAt(Trim(raw), k)
    ensures ParseLine(raw) == SplitAt(Trim(raw), k)
  {
    LastSpaceFound(Trim(raw), k);
  }

  /** An accepted line has a non-empty trimmed title and a positive quarter-hour duration. */
  lemma ParseLineValid(raw: string)
    ensures ParseLine(raw).Some? ==> ValidEntry(ParseLine(raw).value)
  {
  }

  /** An accepted entry: non-empty trimmed title, positive quarter-hour duration. */
  predicate ValidEntry(e: Entry) {
    e.title != [] && NoSpaceAtEnds(e.title) && e.duration > 0 && e.duration % Step == 0
  }

  /** Each memo line, parsed, in line order. */
  function ParsedLines(lines: seq<string>): (parsed: seq<Option<Entry>>)
    ensures |parsed| == |lines|
  {
    if lines == [] then [] else [ParseLine(lines[0])] + ParsedLines(lines[1..])
  }

  /** The j-th parsed line is the j-th line, parsed. */
  lemma {:induction false} ParsedLinesAt(lines: seq<string>, j: nat)
    requires j < |lines|
    ensures ParsedLines(lines)[j] == ParseLine(lines[j])
  {
    if j > 0 {
      ParsedLinesAt(lines[1..], j - 1);
    }
  }

  /**
   * The tasks compiled from the parsed lines `i..`: line `j` becomes the
   * task with id `base + j` (`Date.now() + index`), and the colour counter
   * `c` advances once per accepted line.
   */
  function CompileFrom(parsed: seq<Option<Entry>>, i: nat, base: int, c: nat): seq<Task>
    requires i <= |parsed|
    decreases |parsed| - i
  {
    if i == |parsed| then []
    else
      match parsed[i]
      case None => CompileFrom(parsed, i + 1, base, c)
      case Some(e) => [Task(base + i, e.title, e.duration, None, ColorOf(c))] + CompileFrom(parsed, i + 1, base, c + 1)
  }

  /** `parseTodoMemo(memoText)` with `Date.now()` equal to `base` and `colorIndex` equal to `c`. */
  function Compile(memo: string, base: int, c: nat): seq<Task>
  {
    CompileFrom(ParsedLines(SplitLines(memo)), 0, base, c)
  }

  /** The k-th task comes from an accepted line and has the k-th colour after `c`. */
  predicate FromLine(parsed: seq<Option<Entry>>, base: int, c: nat, r: seq<Task>, k: int)
    requires 0 <= k < |r|
  {
    var j := r[k].id - base;
    0 <= j < |parsed| && r[k].duration >= 0
    && parsed[j] == Some(Entry(r[k].title, r[k].duration))
    && r[k].start == None
    && r[k].color == ColorOf(c + k)
  }

  /**
   * Every task compiled from lines `i..` comes from an accepted line at or
   * after `i`, is unplaced, and has the next colour of the palette.
   */
  lemma {:induction false} CompileFromOrigin(parsed: seq<Option<Entry>>, i: nat, base: int, c: nat)
    requires i <= |parsed|
    ensures forall k :: 0 <= k < |CompileFrom(parsed, i, base, c)| ==>
      FromLine(parsed, base, c, CompileFrom(parsed, i, base, c), k)
    ensures forall k :: 0 <= k < |CompileFrom(parsed, i, base, c)| ==> base + i <= CompileFrom(parsed, i, base, c)[k].id
    decreases |parsed| - i
  {
    if i < |parsed| {
      match parsed[i]
      case None =>
        CompileFromOrigin(parsed, i + 1, base, c);
      case Some(e) =>
        CompileFromOrigin(parsed, i + 1, base, c + 1);
        var r := CompileFrom(parsed, i, base, c);
        var rest := CompileFrom(parsed, i + 1, base, c + 1);
        assert r == [Task(base + i, e.title, e.duration, None, ColorOf(c))] + rest;
        forall k | 0 < k < |r| ensures FromLine(parsed, base, c, r, k) {
          assert r[k] == rest[k - 1];
          assert FromLine(parsed, base, c + 1, rest, k - 1);
        }
    }
  }

  /** Ids grow strictly with the position: tasks follow line order. */
  lemma {:induction false} CompileFromOrder(parsed: seq<Option<Entry>>, i: nat, base: int, c: nat)
    requires i <= |parsed|
    ensures forall a, b :: 0 <= a < b < |CompileFrom(parsed, i, base, c)| ==>
      CompileFrom(parsed, i, base, c)[a].id < CompileFrom(parsed, i, base, c)[b].id
    decreases |parsed| - i
  {
    if i < |parsed| {
      match parsed[i]
      case None =>
        CompileFromOrder(parsed, i + 1, base, c);
      case Some(e) =>
        CompileFromOrder(parsed, i + 1, base, c + 1);
        CompileFromOrigin(parsed, i + 1, base, c + 1);
        var r := CompileFrom(parsed, i, base, c);
        var rest := CompileFrom(parsed, i + 1, base, c + 1);
        assert forall k :: 0 < k < |r| ==> r[k] == rest[k - 1];
    }
  }

  /** Some task of `r` has the id `id`. */
  predicate HasTask(r: seq<Task>, id: int) {
    exists k :: 0 <= k < |r| && r[k].id == id
  }

  /** Every accepted line at or after `i` yields a task. */
  lemma {:induction false} CompileFromComplete(parsed: seq<Option<Entry>>, i: nat, base: int, c: nat)
    requires i <= |parsed|
    ensures forall j :: i <= j < |parsed| && parsed[j].Some? ==> HasTask(CompileFrom(parsed, i, base, c), base + j)
    decreases |parsed| - i
  {
    if i < |parsed| {
      var r := CompileFrom(parsed, i, base, c);
      if parsed[i].Some? {
        var e := parsed[i].value;
        var rest := CompileFrom(parsed, i + 1, base, c + 1);
        CompileFromComplete(parsed, i + 1, base, c + 1);
        assert r == [Task(base + i, e.title, e.duration, None, ColorOf(c))] + rest;
        assert HasTask(r, base + i) by {
          assert r[0].id == base + i;
        }
        forall j | i < j < |parsed| && parsed[j].Some? ensures HasTask(r, base + j) {
          var k :| 0 <= k < |rest| && rest[k].id == base + j;
          assert r[k + 1] == rest[k];
        }
      } else {
        assert r == CompileFrom(parsed, i + 1, base, c);
        CompileFromComplete(parsed, i + 1, base, c);
      }
    }
  }

  /**
   * `parseTodoMemo` emits exactly the accepted lines, in line order: the
   * k-th task carries the entry of line `id - base`, ids grow strictly, and
   * every accepted line has a task.
   */
  lemma CompileExact(parsed: seq<Option<Entry>>, base: int, c: nat)
    ensures forall k :: 0 <= k < |CompileFrom(parsed, 0, base, c)| ==>
      FromLine(parsed, base, c, CompileFrom(parsed, 0, base, c), k)
    ensures forall a, b :: 0 <= a < b < |CompileFrom(parsed, 0, base, c)| ==>
      CompileFrom(parsed, 0, base, c)[a].id < CompileFrom(parsed, 0, base, c)[b].id
    ensures forall j :: 0 <= j < |parsed| && parsed[j].Some? ==> HasTask(CompileFrom(parsed, 0, base, c), base + j)
  {
    CompileFromOrigin(parsed, 0, base, c);
    CompileFromOrder(parsed, 0, base, c);
    CompileFromComplete(parsed, 0, base, c);
  }

  /** Every entry the line parser accepts is valid. */
  predicate AllValid(parsed: seq<Option<Entry>>) {
    forall j :: 0 <= j < |parsed| && parsed[j].Some? ==> ValidEntry(parsed[j].value)
  }

  /** The parsed lines of any memo hold only valid entries. */
  lemma ParsedLinesValid(lines: seq<string>)
    ensures AllValid(ParsedLines(lines))
  {
    forall j | 0 <= j < |lines|
      ensures ParsedLines(lines)[j].Some? ==> ValidEntry(ParsedLines(lines)[j].value)
    {
      ParsedLinesAt(lines, j);
      ParseLineValid(lines[j]);
    }
  }

  /**
   * The compiled tasks, for any colour counter `c`: unplaced, with non-empty
   * trimmed titles, positive quarter-hour durations, pairwise distinct ids,
   * and the k-th task coloured with the (c + k)-th palette entry.
   */
  lemma CompileWellFormed(parsed: seq<Option<Entry>>, base: int, c: nat)
    requires AllValid(parsed)
    ensures forall k :: 0 <= k < |CompileFrom(parsed, 0, base, c)| ==>
      var t := CompileFrom(parsed, 0, base, c)[k];
      t.start == None && t.title != [] && NoSpaceAtEnds(t.title)
      && t.duration > 0 && t.duration % Step == 0
      && t.color == (c + k) % PaletteSize
    ensures forall a, b :: 0 <= a < |CompileFrom(parsed, 0, base, c)| && 0 <= b < |CompileFrom(parsed, 0, base, c)| && a != b ==>
      CompileFrom(parsed, 0, base, c)[a].id != CompileFrom(parsed, 0, base, c)[b].id
  {
    CompileFromOrigin(parsed, 0, base, c);
    CompileFromOrder(parsed, 0, base, c);
    var r := CompileFrom(parsed, 0, base, c);
    forall k | 0 <= k < |r|
      ensures r[k].start == None && r[k].title != [] && NoSpaceAtEnds(r[k].title)
      ensures r[k].duration > 0 && r[k].duration % Step == 0
      ensures r[k].color == (c + k) % PaletteSize
    {
      assert FromLine(parsed, base, c, r, k);
      var j := r[k].id - base;
      assert parsed[j] == Some(Entry(r[k].title, r[k].duration));
      assert ValidEntry(parsed[j].value);
      ColorOfIsMod(c + k);
    }
    forall a, b | 0 <= a < |r| && 0 <= b < |r| && a != b ensures r[a].id != r[b].id {
      if a < b { assert r[a].id < r[b].id; } else { assert r[b].id < r[a].id; }
    }
  }

  /**
   * Only ids depend on `Date.now()`: two compilations of the same lines with
   * the same colour counter agree on everything else, and ids differ by the
   * difference of the bases.
   */
  lemma {:induction false} CompileFromIgnoresBase(parsed: seq<Option<Entry>>, i: nat, b1: int, b2: int, c: nat)
    requires i <= |parsed|
    ensures |CompileFrom(parsed, i, b1, c)| == |CompileFrom(parsed, i, b2, c)|
    ensures forall k :: 0 <= k < |CompileFrom(parsed, i, b1, c)| ==>
      CompileFrom(parsed, i, b2, c)[k] == CompileFrom(parsed, i, b1, c)[k].(id := CompileFrom(parsed, i, b1, c)[k].id - b1 + b2)
    decreases |parsed| - i
  {
    if i < |parsed| {
      match parsed[i]
      case None =>
        CompileFromIgnoresBase(parsed, i + 1, b1, b2, c);
      case Some(e) =>
        CompileFromIgnoresBase(parsed, i + 1, b1, b2, c + 1);
        var s1, s2 := CompileFrom(parsed, i + 1, b1, c + 1), CompileFrom(parsed, i + 1, b2, c + 1);
        var r1 := [Task(b1 + i, e.title, e.duration, None, ColorOf(c))] + s1;
        var r2 := [Task(b2 + i, e.title, e.duration, None, ColorOf(c))] + s2;
        assert CompileFrom(parsed, i, b1, c) == r1;
        assert CompileFrom(parsed, i, b2, c) == r2;
        forall k | 0 <= k < |r1| ensures r2[k] == r1[k].(id := r1[k].id - b1 + b2) {
          if k > 0 { assert r1[k] == s1[k - 1] && r2[k] == s2[k - 1]; }
        }
    }
  }

  /**
   * Recompiling a memo from a reset counter (`updateTodosFromMemo`) is
   * deterministic: titles, durations and colours depend only on the memo text.
   */
  lemma ColorsDependOnlyOnText(memo: string, b1: int, b2: int)
    ensures var r1, r2 := Compile(memo, b1, 0), Compile(memo, b2, 0);
      |r1| == |r2|
      && forall k :: 0 <= k < |r1| ==>
           r1[k].title == r2[k].title && r1[k].duration == r2[k].duration
           && r1[k].color == r2[k].color && r1[k].start == r2[k].start
  {
    CompileFromIgnoresBase(ParsedLines(SplitLines(memo)), 0, b1, b2, 0);
  }

  // ---- Memo lines written back ---------------------------------------------

  /** A title a memo line can carry: non-empty, trimmed, without a line feed. */
  predicate ValidTitle(title: string) {
    title != [] && NoSpaceAtEnds(title) && '\n' !in title
  }

  /** The memo line of a task: its title, an ASCII space and its duration in the memo's units. */
  function MemoLine(title: string, duration: nat): string
  {
    title + " " + MemoToken(duration)
  }

  /** Every character of a duration token is a digit or a unit word character. */
  lemma TokenChars(d: nat)
    ensures var t := MemoToken(d);
      t != [] && IsDigit(t[0]) && (t[|t| - 1] == '分' || t[|t| - 1] == '間')
      && forall q :: 0 <= q < |t| ==> IsDigit(t[q]) || t[q] == '時' || t[q] == '間' || t[q] == '分'
  {
    var h, m := d / MinutesPerHour, d % MinutesPerHour;
    var t := MemoToken(d);
    if h > 0 && m > 0 {
      var a, b := NatStr(h), NatStr(m);
      assert t == a + "時間" + b + "分";
      assert forall q :: 0 <= q < |a| ==> t[q] == a[q];
      assert forall q :: |a| + 2 <= q < |a| + 2 + |b| ==> t[q] == b[q - |a| - 2];
    } else if h > 0 {
      var a := NatStr(h);
      assert t == a + "時間";
      assert forall q :: 0 <= q < |a| ==> t[q] == a[q];
    } else {
      var b := NatStr(m);
      assert t == b + "分";
      assert forall q :: 0 <= q < |b| ==> t[q] == b[q];
    }
  }

  /** The shape of `title + " " + token`: trimmed, last space right after the title. */
  lemma JoinedLayout(title: string, t: string)
    requires ValidTitle(title) && t != [] && NoSpaceAtEnds(t) && ' ' !in t
    ensures var line, k := title + " " + t, |title|;
      Trim(line) == line && LastSpaceAt(line, k) && line[..k] == title && line[k + 1..] == t
  {
    var line := title + " " + t;
    var k := |title|;
    assert line[0] == title[0] && line[|line| - 1] == t[|t| - 1];
    TrimIdempotent(line);
    forall i | k < i < |line| ensures line[i] != ' ' {
      assert line[i] == t[i - k - 1];
    }
    assert line[..k] == title && line[k + 1..] == t;
  }

  /** A duration token is trimmed and holds no space. */
  lemma TokenTrimmed(d: nat)
    ensures NoSpaceAtEnds(MemoToken(d)) && ' ' !in MemoToken(d) && MemoToken(d) != []
  {
    var t := MemoToken(d);
    TokenChars(d);
    assert forall q :: 0 <= q < |t| ==> t[q] != ' ';
  }

  /** The shape of a memo line: trimmed, last space right after the title. */
  lemma MemoLineLayout(title: string, d: nat)
    requires ValidTitle(title)
    ensures var line, k := MemoLine(title, d), |title|;
      Trim(line) == line && LastSpaceAt(line, k)
      && line[..k] == title && line[k + 1..] == MemoToken(d)
      && Trim(MemoToken(d)) == MemoToken(d)
  {
    TokenTrimmed(d);
    TrimIdempotent(MemoToken(d));
    JoinedLayout(title, MemoToken(d));
  }

  /**
   * A task's memo line compiles back to the same title and duration, for
   * every duration the parser can produce.
   */
  lemma LineRoundTrip(title: string, d: nat)
    requires ValidTitle(title) && d > 0 && d % Step == 0
    ensures ParseLine(MemoLine(title, d)) == Some(Entry(title, d))
  {
    var line := MemoLine(title, d);
    MemoLineLayout(title, d);
    ParseLineSplit(line, |title|);
    TrimIdempotent(title);
    TokenRoundTrip(d);
  }

  /** The memo lines of a list of entries, one line each. */
  function MemoOf(entries: seq<Entry>): (lines: seq<string>)
    ensures |lines| == |entries|
    ensures forall k :: 0 <= k < |entries| ==> lines[k] == MemoLine(entries[k].title, entries[k].duration)
  {
    seq(|entries|, k requires 0 <= k < |entries| => MemoLine(entries[k].title, entries[k].duration))
  }

  /** Lines that all parse compile to one task each, numbered and coloured in order. */
  lemma {:induction false} CompileAllAccepted(parsed: seq<Option<Entry>>, entries: seq<Entry>, i: nat, base: int, c: nat)
    requires |parsed| == |entries| && i <= |parsed|
    requires forall k :: i <= k < |parsed| ==> parsed[k] == Some(entries[k])
    ensures |CompileFrom(parsed, i, base, c)| == |parsed| - i
    ensures forall k :: 0 <= k < |CompileFrom(parsed, i, base, c)| ==>
      CompileFrom(parsed, i, base, c)[k] == Task(base + i + k, entries[i + k].title, entries[i + k].duration, None, ColorOf(c + k))
    decreases |parsed| - i
  {
    if i < |parsed| {
      CompileAllAccepted(parsed, entries, i + 1, base, c + 1);
      var r := CompileFrom(parsed, i, base, c);
      var rest := CompileFrom(parsed, i + 1, base, c + 1);
      assert r == [Task(base + i, entries[i].title, entries[i].duration, None, ColorOf(c))] + rest;
      assert forall k :: 0 < k < |r| ==> r[k] == rest[k - 1];
    }
  }

  /** A valid entry whose title holds no line feed can be written as a memo line. */
  predicate Writable(e: Entry) {
    ValidEntry(e) && '\n' !in e.title
  }

  /** The memo lines of writable entries parse back to those entries. */
  lemma ParsedMemo(entries: seq<Entry>)
    requires forall k :: 0 <= k < |entries| ==> Writable(entries[k])
    ensures forall k :: 0 <= k < |entries| ==> ParsedLines(MemoOf(entries))[k] == Some(entries[k])
  {
    var lines := MemoOf(entries);
    forall k | 0 <= k < |entries| ensures ParsedLines(lines)[k] == Some(entries[k]) {
      ParsedLinesAt(lines, k);
      LineRoundTrip(entries[k].title, entries[k].duration);
    }
  }

  /** A memo line written from a title without line feeds holds none. */
  lemma MemoLineNoBreak(title: string, d: nat)
    requires '\n' !in title
    ensures '\n' !in MemoLine(title, d)
  {
    TokenChars(d);
    var t := MemoToken(d);
    var line := title + " " + t;
    forall q | 0 <= q < |line| ensures line[q] != '\n' {
      if q > |title| { assert line[q] == t[q - |title| - 1]; }
    }
  }

  /** Splitting a written memo gives its lines back. */
  lemma MemoSplits(entries: seq<Entry>)
    requires |entries| > 0
    requires forall k :: 0 <= k < |entries| ==> '\n' !in entries[k].title
    ensures SplitLines(JoinLines(MemoOf(entries))) == MemoOf(entries)
  {
    var lines := MemoOf(entries);
    forall k | 0 <= k < |lines| ensures '\n' !in lines[k] {
      MemoLineNoBreak(entries[k].title, entries[k].duration);
    }
    SplitJoin(lines);
  }

  /** Compiling a written memo is compiling its lines. */
  lemma MemoCompiles(entries: seq<Entry>, base: int, c: nat)
    requires |entries| > 0
    requires forall k :: 0 <= k < |entries| ==> '\n' !in entries[k].title
    ensures Compile(JoinLines(MemoOf(entries)), base, c) == CompileFrom(ParsedLines(MemoOf(entries)), 0, base, c)
  {
    MemoSplits(entries);
  }

  /** The lines of a written memo compile back to their entries. */
  lemma LinesRoundTrip(entries: seq<Entry>, base: int, c: nat)
    requires forall k :: 0 <= k < |entries| ==> Writable(entries[k])
    ensures |CompileFrom(ParsedLines(MemoOf(entries)), 0, base, c)| == |entries|
    ensures forall k :: 0 <= k < |entries| ==>
      CompileFrom(ParsedLines(MemoOf(entries)), 0, base, c)[k]
        == Task(base + k, entries[k].title, entries[k].duration, None, ColorOf(c + k))
  {
    ParsedMemo(entries);
    CompileAllAccepted(ParsedLines(MemoOf(entries)), entries, 0, base, c);
  }

  /**
   * Writing tasks back as a memo, one line each, and compiling the memo
   * gives them back: the same titles and durations in the same order,
   * unplaced, numbered from `Date.now()` and coloured from the counter.
   */
  lemma MemoRoundTrip(entries: seq<Entry>, base: int, c: nat)
    requires |entries| > 0
    requires forall k :: 0 <= k < |entries| ==> Writable(entries[k])
    ensures |Compile(JoinLines(MemoOf(entries)), base, c)| == |entries|
    ensures forall k :: 0 <= k < |entries| ==>
      Compile(JoinLines(MemoOf(entries)), base, c)[k]
        == Task(base + k, entries[k].title, entries[k].duration, None, ColorOf(c + k))
  {
    MemoCompiles(entries, base, c);
    LinesRoundTrip(entries, base, c);
  }
}
