/** What a host that follows the log holds, however its events are batched. */
module LogFollow {
  const LOG_BATCH: nat := 256

  datatype Line = Line(level: nat, message: string)

  /** What the receiver finds: an event, how many it missed, or nothing for now. */
  datatype Item = Logged(line: Line) | Cleared | Lagged(missed: nat) | Nothing

  datatype Batch = Batch(reset: bool, lines: seq<Line>, dropped: nat)

  function Wanted(lines: seq<Line>, least: nat): seq<Line> {
    if lines == [] then [] else
    Wanted(lines[..|lines| - 1], least) + (if lines[|lines| - 1].level <= least then [lines[|lines| - 1]] else [])
  }

  /** The lines since the last clear, of those that count. */
  function Held(start: seq<Line>, items: seq<Item>, least: nat): seq<Line> {
    if items == [] then start else
    var before, last := Held(start, items[..|items| - 1], least), items[|items| - 1];
    match last
    case Logged(line) => if line.level <= least then before + [line] else before
    case Cleared => []
    case _ => before
  }

  function Missed(items: seq<Item>): nat {
    if items == [] then 0 else
    Missed(items[..|items| - 1]) + (if items[|items| - 1].Lagged? then items[|items| - 1].missed else 0)
  }

  /** A host that drops its lines on `reset` and appends each batch. */
  function Shown(batches: seq<Batch>): seq<Line> {
    if batches == [] then [] else
    var last := batches[|batches| - 1];
    if last.reset then last.lines else Shown(batches[..|batches| - 1]) + last.lines
  }

  function Reported(batches: seq<Batch>): nat {
    if batches == [] then 0 else Reported(batches[..|batches| - 1]) + batches[|batches| - 1].dropped
  }

  function Start(kept: seq<Line>, least: nat, backlog: bool): seq<Line> {
    if backlog then Wanted(kept, least) else []
  }

  /** What the host is owed: it shows exactly the lines held, and was told of every
      line missed once. */
  ghost predicate UpToDate(batches: seq<Batch>, kept: seq<Line>, items: seq<Item>, least: nat, backlog: bool) {
    Shown(batches) == Held(Start(kept, least, backlog), items, least) && Reported(batches) == Missed(items)
  }

  /** Each batch after the first is small, and says something. */
  ghost predicate Small(batches: seq<Batch>) {
    forall i :: 1 <= i < |batches| ==>
      |batches[i].lines| <= 256 && (batches[i].reset || batches[i].lines != [] || batches[i].dropped > 0)
  }

  /** One batch under way: what it would make of what the host has. */
  ghost predicate Gathering(shown: seq<Line>, told: nat, b: Batch, kept: seq<Line>, items: seq<Item>, least: nat,
                            backlog: bool) {
    && (if b.reset then b.lines else shown + b.lines) == Held(Start(kept, least, backlog), items, least)
    && told + b.dropped == Missed(items)
    && |b.lines| <= LOG_BATCH
  }

  function Take(b: Batch, item: Item, least: nat): Batch {
    match item
    case Logged(line) => if line.level <= least then b.(lines := b.lines + [line]) else b
    case Cleared => b.(lines := [], reset := true)
    case Lagged(n) => b.(dropped := b.dropped + n)
    case Nothing => b
  }

  lemma Taken(shown: seq<Line>, told: nat, b: Batch, kept: seq<Line>, items: seq<Item>, i: nat, least: nat,
              backlog: bool)
    requires i < |items| && Gathering(shown, told, b, kept, items[..i], least, backlog) && |b.lines| < LOG_BATCH
    ensures Gathering(shown, told, Take(b, items[i], least), kept, items[..i + 1], least, backlog)
  {
    assert items[..i + 1][..i] == items[..i];
  }

  lemma Emitted(batches: seq<Batch>, b: Batch, kept: seq<Line>, items: seq<Item>, least: nat, backlog: bool)
    requires Gathering(Shown(batches), Reported(batches), b, kept, items, least, backlog)
    ensures UpToDate(batches + [b], kept, items, least, backlog)
  {
    assert (batches + [b])[..|batches|] == batches;
  }

  /** A wanted line, a clear, or lines missed. */
  predicate Counts(item: Item, least: nat) {
    match item
    case Logged(line) => line.level <= least
    case Cleared => true
    case Lagged(missed) => missed > 0
    case Nothing => false
  }

  /** From the first that counts on, all was there at once. */
  ghost predicate AtOnce(items: seq<Item>, from: nat, end: nat, least: nat)
    requires end <= |items|
  {
    forall k, l :: from <= k < l < end && Counts(items[k], least) ==> !items[l].Nothing?
  }

  /** Batch by batch, with `ends[i]` items read by the end of each: the host is up to
      date after every one, and a batch ends when it is full or nothing more is there. */
  ghost predicate Paced(batches: seq<Batch>, ends: seq<nat>, kept: seq<Line>, items: seq<Item>, least: nat,
                        backlog: bool) {
    && |ends| == |batches|
    && forall i :: 0 <= i < |ends| ==> PacedAt(batches, ends, kept, items, least, backlog, i)
  }

  ghost predicate PacedAt(batches: seq<Batch>, ends: seq<nat>, kept: seq<Line>, items: seq<Item>, least: nat,
                          backlog: bool, i: nat)
    requires i < |ends| == |batches|
  {
    && ends[i] <= |items| && UpToDate(batches[..i + 1], kept, items[..ends[i]], least, backlog)
    && (if i == 0 then ends[0] == 0 else
          && ends[i - 1] < ends[i] && AtOnce(items, ends[i - 1], ends[i], least)
          && (|batches[i].lines| >= 256 || ends[i] == |items| || items[ends[i]].Nothing?))
  }

  lemma PacedMore(batches: seq<Batch>, ends: seq<nat>, kept: seq<Line>, items: seq<Item>, least: nat, backlog: bool,
                  b: Batch, end: nat)
    requires Paced(batches, ends, kept, items, least, backlog) && end <= |items|
    requires UpToDate(batches + [b], kept, items[..end], least, backlog)
    requires ends == [] ==> end == 0
    requires ends != [] ==> ends[|ends| - 1] < end && AtOnce(items, ends[|ends| - 1], end, least)
    requires ends != [] ==>
      (|b.lines| >= 256 || end == |items| || items[end].Nothing?)
    ensures Paced(batches + [b], ends + [end], kept, items, least, backlog)
  {
    hide UpToDate;
    var more, later := batches + [b], ends + [end];
    forall i | 0 <= i < |later| ensures PacedAt(more, later, kept, items, least, backlog, i) {
      if i < |ends| {
        assert PacedAt(batches, ends, kept, items, least, backlog, i);
        assert more[..i + 1] == batches[..i + 1];
      } else {
        assert more[..i + 1] == more;
      }
    }
  }

  /** `takes`: after how many batches the sink takes no more. */
  method Follow(kept: seq<Line>, items: seq<Item>, least: nat, backlog: bool, takes: nat)
    returns (batches: seq<Batch>, read: nat, ghost ends: seq<nat>)
    ensures read <= |items| && batches != []
    ensures batches[0] == Batch(true, if backlog then Wanted(kept, least) else [], 0)
    ensures UpToDate(batches, kept, items[..read], least, backlog)
    ensures Small(batches) && Paced(batches, ends, kept, items, least, backlog)
    ensures |batches| < takes ==> forall i :: read <= i < |items| ==> items[i].Nothing?
  {
    hide Held, Missed, Shown, Reported, Wanted, UpToDate, Gathering, Paced;
    var first := Batch(true, Start(kept, least, backlog), 0);
    batches, read, ends := [first], 0, [0];
    First(first, kept, items, least, backlog);
    NoPace(kept, items, least, backlog);
    assert [] + [first] == batches && [] + [0] == ends;
    PacedMore([], [], kept, items, least, backlog, first, 0);
    while |batches| < takes
      invariant read <= |items| && batches != [] && batches[0] == first
      invariant UpToDate(batches, kept, items[..read], least, backlog) && Small(batches)
      invariant Paced(batches, ends, kept, items, least, backlog) && ends != [] && ends[|ends| - 1] <= read
      invariant forall k :: ends[|ends| - 1] <= k < read ==> !Counts(items[k], least)
      decreases |items| - read
    {
      var i := AwaitItem(items, read);
      if i == |items| {
        return;
      }
      ghost var shown, told := Shown(batches), Reported(batches);
      Skipped(batches, kept, items, read, i, least, backlog);
      var b := Take(Batch(false, [], 0), items[i], least);
      Taken(shown, told, Batch(false, [], 0), kept, items, i, least, backlog);
      read := i + 1;
      while |b.lines| < LOG_BATCH && read < |items| && !items[read].Nothing?
        invariant i < read <= |items|
        invariant Gathering(shown, told, b, kept, items[..read], least, backlog)
        invariant forall k :: i <= k < read ==> !items[k].Nothing?
        invariant b == Batch(false, [], 0) ==> forall k :: i <= k < read ==> !Counts(items[k], least)
        decreases |items| - read
      {
        Taken(shown, told, b, kept, items, read, least, backlog);
        b := Take(b, items[read], least);
        read := read + 1;
      }
      Emitted(batches, b, kept, items[..read], least, backlog);
      if b.lines == [] && !b.reset && b.dropped == 0 {
        Unchanged(batches, b, kept, items[..read], least, backlog);
        continue;
      }
      SmallLines(shown, told, b, kept, items[..read], least, backlog);
      PacedMore(batches, ends, kept, items, least, backlog, b, read);
      batches, ends := batches + [b], ends + [read];
    }
  }

  lemma NoPace(kept: seq<Line>, items: seq<Item>, least: nat, backlog: bool)
    ensures Paced([], [], kept, items, least, backlog)
  {}

  /** Waits for something to read; the end of the stream when there is none. */
  method AwaitItem(items: seq<Item>, from: nat) returns (i: nat)
    requires from <= |items|
    ensures from <= i <= |items| && (i < |items| ==> !items[i].Nothing?)
    ensures forall j :: from <= j < i ==> items[j].Nothing?
  {
    i := from;
    while i < |items| && items[i].Nothing?
      invariant from <= i <= |items|
      invariant forall j :: from <= j < i ==> items[j].Nothing?
    {
      i := i + 1;
    }
  }

  lemma First(first: Batch, kept: seq<Line>, items: seq<Item>, least: nat, backlog: bool)
    requires first == Batch(true, Start(kept, least, backlog), 0)
    ensures UpToDate([first], kept, items[..0], least, backlog)
  {
    assert [first][..0] == [];
  }

  /** Nothing read, nothing owed: an empty batch may begin. */
  lemma {:induction false} Skipped(batches: seq<Batch>, kept: seq<Line>, items: seq<Item>, read: nat, i: nat,
                                   least: nat, backlog: bool)
    requires read <= i <= |items| && UpToDate(batches, kept, items[..read], least, backlog)
    requires forall j :: read <= j < i ==> items[j].Nothing?
    ensures Gathering(Shown(batches), Reported(batches), Batch(false, [], 0), kept, items[..i], least, backlog)
    decreases i
  {
    if read < i {
      Skipped(batches, kept, items, read, i - 1, least, backlog);
      assert items[..i][..i - 1] == items[..i - 1];
    }
  }

  lemma Unchanged(batches: seq<Batch>, b: Batch, kept: seq<Line>, items: seq<Item>, least: nat, backlog: bool)
    requires UpToDate(batches + [b], kept, items, least, backlog) && b == Batch(false, [], 0)
    ensures UpToDate(batches, kept, items, least, backlog)
  {
    assert (batches + [b])[..|batches|] == batches;
  }

  lemma SmallLines(shown: seq<Line>, told: nat, b: Batch, kept: seq<Line>, items: seq<Item>, least: nat, backlog: bool)
    requires Gathering(shown, told, b, kept, items, least, backlog)
    ensures |b.lines| <= LOG_BATCH
  {}

  /** The lines among `items`. */
  function LinesOf(items: seq<Item>): seq<Line> {
    if items == [] then [] else
    LinesOf(items[..|items| - 1]) + (if items[|items| - 1].Logged? then [items[|items| - 1].line] else [])
  }

  lemma {:induction false} HeldThrough(start: seq<Line>, a: seq<Item>, b: seq<Item>, least: nat)
    ensures Held(start, a + b, least) == Held(Held(start, a, least), b, least)
    decreases |b|
  {
    if b == [] {
      assert a + b == a;
    } else {
      HeldThrough(start, a, b[..|b| - 1], least);
      assert (a + b)[..|a + b| - 1] == a + b[..|b| - 1];
    }
  }

  lemma {:induction false} HeldUncleared(start: seq<Line>, since: seq<Item>, least: nat)
    requires forall i :: 0 <= i < |since| ==> !since[i].Cleared?
    ensures Held(start, since, least) == start + Wanted(LinesOf(since), least)
    decreases |since|
  {
    if since != [] {
      var n := |since| - 1;
      HeldUncleared(start, since[..n], least);
      var lines, last := LinesOf(since[..n]), since[n];
      if last.Logged? {
        WantedSnoc(lines, last.line, least);
        assert LinesOf(since) == lines + [last.line];
      } else {
        assert LinesOf(since) == lines;
      }
    }
  }

  lemma WantedSnoc(lines: seq<Line>, line: Line, least: nat)
    ensures Wanted(lines + [line], least) == Wanted(lines, least) + (if line.level <= least then [line] else [])
  {
    assert (lines + [line])[..|lines|] == lines;
  }

  /** What is held are the wanted lines since the last clear. */
  lemma HeldSinceClear(start: seq<Line>, before: seq<Item>, since: seq<Item>, least: nat)
    requires forall i :: 0 <= i < |since| ==> !since[i].Cleared?
    ensures Held(start, before + [Cleared] + since, least) == Wanted(LinesOf(since), least)
  {
    HeldThrough(start, before + [Cleared], since, least);
    HeldUncleared([], since, least);
  }
}
