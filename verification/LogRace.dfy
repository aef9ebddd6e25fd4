/**
  The transition log of src/SafetyArbitrator.cpp under its two threads: the commit of a
  transition in the arbitration thread, and DrainTransitionLog in a diagnostic thread, one
  shared memory access at a time.

  The commit counts the transition, then writes the cells of its entry, then publishes
  head.  The drain reads head, reads the count once or twice, and copies entries from head
  backwards.  Neither waits for the other.
 */
module LogRace {
  import opened GatewayTypes
  import opened Modulo
  import opened ArbitratorState

  /** Where the commit stands: outside, behind the count, or before the given cell of its entry. */
  datatype Writer<T> = Idle | Counted(item: seq<T>) | Writing(item: seq<T>, slot: nat, cell: nat)

  /**
    Where the drain stands: outside, behind its reading of head, behind a first reading of
    the count, or copying.  `known` is the number of transitions logged as head was read.
   */
  datatype Reader<T> =
    | Away
    | SawHead(known: nat, head: nat, size: nat)
    | SawCount(known: nat, head: nat, size: nat)
    | Copying(known: nat, head: nat, toCopy: nat, copied: seq<seq<T>>, got: seq<T>)

  /** The shared fields, both threads, every transition logged, and whether the drain has read an overwritten cell. */
  datatype State<T> = State(
    slots: seq<seq<T>>, head: nat, count: nat, writer: Writer<T>, reader: Reader<T>,
    history: seq<seq<T>>, late: bool)

  datatype Step<T> =
    | Count(item: seq<T>)
    | ReadLogHead
    | WriteCell
    | PublishHead
    | StartDrain(size: nat)
    | ReadCount
    | ReadCountAgain
    | CopyCell
    | EndDrain

  function Start<T>(blank: seq<T>): State<T> {
    State(seq(MAX_TRANSITION_LOG, _ => blank), 0, 0, Idle, Away, [], false)
  }

  /** The slot behind the i-th entry that a drain copies. */
  function Index(head: nat, i: nat): (x: nat)
    ensures x < MAX_TRANSITION_LOG
  {
    (head - 1 - i) % MAX_TRANSITION_LOG
  }

  /** How often cell c of the slots has been written in turn: the number of transitions whose cell c is in the log. */
  function Written<T>(s: State<T>, c: nat): nat {
    |s.history| + (if s.writer.Writing? && c < s.writer.cell then 1 else 0)
  }

  /** The drain has copied what it meant to. */
  predicate Finished<T>(s: State<T>) {
    s.reader.Copying? && |s.reader.copied| == s.reader.toCopy
  }

  /** The transitions whose entries have been written or begun. */
  function Begun<T>(s: State<T>): nat {
    |s.history| + (if s.writer.Writing? then 1 else 0)
  }

  function Next<T(==)>(s: State<T>, step: Step<T>): State<T> {
    match step
    case Count(item) =>
      if s.writer.Idle? then s.(count := Increment32(s.count), writer := Writer.Counted(item)) else s
    case ReadLogHead =>
      if s.writer.Counted? then s.(writer := Writing(s.writer.item, s.head, 0)) else s
    case WriteCell =>
      if s.writer.Writing? && s.writer.slot < |s.slots|
         && s.writer.cell < |s.writer.item| && s.writer.cell < |s.slots[s.writer.slot]| then
        var x, c := s.writer.slot, s.writer.cell;
        s.(slots := s.slots[x := s.slots[x][c := s.writer.item[c]]], writer := Writing(s.writer.item, x, c + 1))
      else s
    case PublishHead =>
      if s.writer.Writing? && s.writer.cell == |s.writer.item| then
        s.(head := (s.writer.slot + 1) % MAX_TRANSITION_LOG, history := s.history + [s.writer.item], writer := Idle)
      else s
    case StartDrain(size) =>
      // The size of the caller's buffer is an 8-bit number.
      if s.reader.Away? && size < 256 then s.(reader := SawHead(|s.history|, s.head, size), late := false) else s
    case ReadCount =>
      if s.reader.SawHead? then
        var r := s.reader;
        if s.count > MAX_TRANSITION_LOG then
          s.(reader := Copying(r.known, r.head, Min(MAX_TRANSITION_LOG, r.size), [], []))
        else s.(reader := SawCount(r.known, r.head, r.size))
      else s
    case ReadCountAgain =>
      // The second reading is cut to 8 bits and not compared with the size of the log.
      if s.reader.SawCount? then
        var r := s.reader;
        s.(reader := Copying(r.known, r.head, Min(s.count % 256, r.size), [], []))
      else s
    case CopyCell =>
      if s.reader.Copying? && |s.reader.copied| < s.reader.toCopy && |s.slots| == MAX_TRANSITION_LOG
         && |s.reader.got| < |s.slots[Index(s.reader.head, |s.reader.copied|)]| then
        var r, i := s.reader, |s.reader.copied|;
        var slot, c := s.slots[Index(r.head, i)], |r.got|;
        var got := r.got + [slot[c]];
        var full := |got| == |slot|;
        s.(reader := r.(copied := if full then r.copied + [got] else r.copied, got := if full then [] else got),
           late := s.late || Written(s, c) > r.known + MAX_TRANSITION_LOG - 1 - i)
      else s
    case EndDrain => if Finished(s) then s.(reader := Away) else s
  }

  function Run<T(==)>(s: State<T>, steps: seq<Step<T>>): State<T>
    decreases |steps|
  {
    if steps == [] then s else Run(Next(s, steps[0]), steps[1..])
  }

  // ------------------------------------------------------------------
  // Invariant
  // ------------------------------------------------------------------

  /** The entry of the k-th transition; before the first there are blank slots. */
  function Entry<T>(history: seq<seq<T>>, blank: seq<T>, k: int): seq<T>
    requires k < |history|
  {
    if k < 0 then blank else history[k]
  }

  ghost predicate Laid<T>(s: State<T>, blank: seq<T>) {
    && |s.slots| == MAX_TRANSITION_LOG && |blank| >= 1
    && (forall i :: 0 <= i < MAX_TRANSITION_LOG ==> |s.slots[i]| == |blank|)
    && (forall i :: 0 <= i < |s.history| ==> |s.history[i]| == |blank|)
    && s.head == |s.history| % MAX_TRANSITION_LOG
    && s.count == (|s.history| + (if s.writer.Idle? then 0 else 1)) % TWO_32
  }

  /** Cell c of the k-th transition can be read in the log. */
  ghost predicate InLog<T>(s: State<T>, blank: seq<T>, k: int, c: nat)
    requires Laid(s, blank) && k < |s.history| && c < |blank|
  {
    s.slots[k % MAX_TRANSITION_LOG][c] == Entry(s.history, blank, k)[c]
  }

  /** The last 32 transitions are in the log, up to the cells that the next one has overwritten. */
  ghost predicate LogHolds<T>(s: State<T>, blank: seq<T>)
    requires Laid(s, blank)
  {
    forall k: int, c: nat ::
      k < |s.history| && c < |blank| && Written(s, c) <= k + MAX_TRANSITION_LOG ==> InLog(s, blank, k, c)
  }

  ghost predicate WriterOk<T>(s: State<T>, blank: seq<T>)
    requires Laid(s, blank)
  {
    match s.writer
    case Idle => true
    case Counted(item) => |item| == |blank|
    case Writing(item, slot, cell) =>
      && |item| == |blank| && slot == s.head && cell <= |blank|
      && forall c :: 0 <= c < cell ==> s.slots[s.head][c] == item[c]
  }

  /** Unless it has read an overwritten cell, the drain has copied the transitions it knew, newest first. */
  ghost predicate ReaderOk<T>(s: State<T>, blank: seq<T>) {
    match s.reader
    case Away => true
    case SawHead(known, head, _) => known <= |s.history| && head == known % MAX_TRANSITION_LOG && !s.late
    case SawCount(known, head, _) => known <= |s.history| && head == known % MAX_TRANSITION_LOG && !s.late
    case Copying(known, head, toCopy, copied, got) =>
      && known <= |s.history| && head == known % MAX_TRANSITION_LOG
      && |copied| <= toCopy && |got| < |blank|
      && (forall i :: 0 <= i < |copied| ==> |copied[i]| == |blank|)
      && (!s.late ==> CopiedOk(s.history, blank, known, copied, got))
      && (s.late ==> Begun(s) > known + MAX_TRANSITION_LOG - toCopy)
  }

  ghost predicate CopiedOk<T>(history: seq<seq<T>>, blank: seq<T>, known: nat, copied: seq<seq<T>>, got: seq<T>)
    requires known <= |history|
  {
    && (forall i :: 0 <= i < |copied| ==> copied[i] == Entry(history, blank, known - 1 - i))
    && got <= Entry(history, blank, known - 1 - |copied|)
  }

  ghost predicate LogInv<T>(s: State<T>, blank: seq<T>) {
    Laid(s, blank) && LogHolds(s, blank) && WriterOk(s, blank) && ReaderOk(s, blank)
  }

  lemma StartInv<T>(blank: seq<T>)
    requires |blank| >= 1
    ensures LogInv(Start(blank), blank)
  {
  }

  lemma CountKeeps<T>(s: State<T>, blank: seq<T>, item: seq<T>)
    requires LogInv(s, blank) && |item| == |blank|
    ensures LogInv(Next(s, Count(item)), blank) && LogInv(Next(s, ReadLogHead), blank)
  {
    var a, b := Next(s, Count(item)), Next(s, ReadLogHead);
    ModStep(|s.history|, TWO_32);
    assert Laid(a, blank) && Laid(b, blank);
    forall k: int, c: nat | k < |s.history| && c < |blank| && Written(a, c) <= k + MAX_TRANSITION_LOG
      ensures InLog(a, blank, k, c)
    {
      assert InLog(s, blank, k, c);
    }
    forall k: int, c: nat | k < |s.history| && c < |blank| && Written(b, c) <= k + MAX_TRANSITION_LOG
      ensures InLog(b, blank, k, c)
    {
      assert InLog(s, blank, k, c);
    }
  }

  lemma WriteKeeps<T>(s: State<T>, blank: seq<T>)
    requires LogInv(s, blank)
    ensures LogInv(Next(s, WriteCell), blank)
  {
    var t := Next(s, WriteCell);
    assert Laid(t, blank);
    forall k: int, c: nat | k < |s.history| && c < |blank| && Written(t, c) <= k + MAX_TRANSITION_LOG
      ensures InLog(t, blank, k, c)
    {
      assert InLog(s, blank, k, c);
      if t != s && c == s.writer.cell { OtherSlot(k, |s.history|); }
    }
  }

  lemma RoundAgain(k: int)
    ensures (k + MAX_TRANSITION_LOG) % MAX_TRANSITION_LOG == k % MAX_TRANSITION_LOG
  {
  }

  /** Two positions less than 32 apart, the lower one perhaps before the first. */
  lemma OtherSlot(k: int, h: nat)
    requires k < h <= k + MAX_TRANSITION_LOG - 1
    ensures k % MAX_TRANSITION_LOG != h % MAX_TRANSITION_LOG
  {
    RoundAgain(k);
    RoundAgain(h);
    var a, b: nat := k + MAX_TRANSITION_LOG, h + MAX_TRANSITION_LOG;
    ModDistinct(a, b, MAX_TRANSITION_LOG);
  }

  lemma PublishKeeps<T>(s: State<T>, blank: seq<T>)
    requires LogInv(s, blank)
    ensures LogInv(Next(s, PublishHead), blank)
  {
    var t := Next(s, PublishHead);
    if t != s {
      ModStep(|s.history|, MAX_TRANSITION_LOG);
      assert Laid(t, blank);
      forall k: int, c: nat | k < |t.history| && c < |blank| && Written(t, c) <= k + MAX_TRANSITION_LOG
        ensures InLog(t, blank, k, c)
      {
        if k < |s.history| { assert InLog(s, blank, k, c); }
      }
    }
  }

  lemma BackwardIndex(known: nat, i: nat)
    ensures Index(known % MAX_TRANSITION_LOG, i) == (known - 1 - i) % MAX_TRANSITION_LOG
  {
  }

  /** The records copied so far after one more cell x. */
  function Grown<T>(copied: seq<seq<T>>, got: seq<T>, x: T, w: nat): seq<seq<T>> {
    if |got| + 1 == w then copied + [got + [x]] else copied
  }

  lemma GrownOk<T>(history: seq<seq<T>>, blank: seq<T>, known: nat, copied: seq<seq<T>>, got: seq<T>, x: T)
    requires known <= |history| && CopiedOk(history, blank, known, copied, got) && |got| < |blank|
    requires var entry := Entry(history, blank, known - 1 - |copied|); |entry| == |blank| && x == entry[|got|]
    ensures CopiedOk(history, blank, known, Grown(copied, got, x, |blank|),
                     if |got| + 1 == |blank| then [] else got + [x])
  {
    var entry := Entry(history, blank, known - 1 - |copied|);
    assert got + [x] == entry[..|got| + 1];
  }

  lemma CopyKeeps<T>(s: State<T>, blank: seq<T>)
    requires LogInv(s, blank)
    ensures LogInv(Next(s, CopyCell), blank)
  {
    var t := Next(s, CopyCell);
    KeepsLog(s, t, blank);
    hide LogHolds, WriterOk;
    if t != s { CopyKeepsReader(s, blank); }
  }

  lemma OneCopied<T>(s: State<T>)
    requires s.reader.Copying? && |s.reader.copied| < s.reader.toCopy && |s.slots| == MAX_TRANSITION_LOG
    requires |s.reader.got| < |s.slots[Index(s.reader.head, |s.reader.copied|)]|
    ensures var r, i, c := s.reader, |s.reader.copied|, |s.reader.got|;
      var slot, t := s.slots[Index(r.head, i)], Next(s, CopyCell);
      && t == s.(reader := t.reader, late := t.late)
      && t.late == (s.late || Written(s, c) > r.known + MAX_TRANSITION_LOG - 1 - i)
      && t.reader == r.(copied := Grown(r.copied, r.got, slot[c], |slot|),
                        got := if c + 1 == |slot| then [] else r.got + [slot[c]])
  {
  }

  lemma CellRead<T>(s: State<T>, blank: seq<T>, known: nat, i: nat, c: nat)
    requires Laid(s, blank) && LogHolds(s, blank) && known <= |s.history| && c < |blank|
    requires Written(s, c) <= known + MAX_TRANSITION_LOG - 1 - i
    ensures |Entry(s.history, blank, known - 1 - i)| == |blank|
    ensures s.slots[Index(known % MAX_TRANSITION_LOG, i)][c] == Entry(s.history, blank, known - 1 - i)[c]
  {
    assert InLog(s, blank, known - 1 - i, c);
    BackwardIndex(known, i);
  }

  lemma CopyKeepsReader<T>(s: State<T>, blank: seq<T>)
    requires Laid(s, blank) && LogHolds(s, blank) && ReaderOk(s, blank) && Next(s, CopyCell) != s
    ensures ReaderOk(Next(s, CopyCell), blank)
  {
    hide LogHolds, Index, Entry, Grown, CopiedOk;
    var r, i, c := s.reader, |s.reader.copied|, |s.reader.got|;
    OneCopied(s);
    var t := Next(s, CopyCell);
    if !t.late {
      CellRead(s, blank, r.known, i, c);
      GrownOk(s.history, blank, r.known, r.copied, r.got, s.slots[Index(r.head, i)][c]);
    }
    GrownShape(r.copied, r.got, s.slots[Index(r.head, i)][c], |blank|);
    hide Next, Written;
  }

  lemma GrownShape<T>(copied: seq<seq<T>>, got: seq<T>, x: T, w: nat)
    requires forall i :: 0 <= i < |copied| ==> |copied[i]| == w
    ensures var g := Grown(copied, got, x, w);
      |copied| <= |g| <= |copied| + 1 && forall i :: 0 <= i < |g| ==> |g[i]| == w
  {
  }

  /** A step of the drain leaves the log alone. */
  lemma KeepsLog<T>(s: State<T>, t: State<T>, blank: seq<T>)
    requires Laid(s, blank) && LogHolds(s, blank) && WriterOk(s, blank)
    requires t == s.(reader := t.reader, late := t.late)
    ensures Laid(t, blank) && LogHolds(t, blank) && WriterOk(t, blank)
  {
    forall k: int, c: nat | k < |s.history| && c < |blank| && Written(t, c) <= k + MAX_TRANSITION_LOG
      ensures InLog(t, blank, k, c)
    {
      assert InLog(s, blank, k, c);
    }
  }

  lemma ReadKeeps<T>(s: State<T>, blank: seq<T>, step: Step<T>)
    requires LogInv(s, blank) && (step.StartDrain? || step.ReadCount? || step.ReadCountAgain? || step.EndDrain?)
    ensures LogInv(Next(s, step), blank)
  {
    KeepsLog(s, Next(s, step), blank);
  }

  lemma StepKeeps<T>(s: State<T>, blank: seq<T>, step: Step<T>)
    requires LogInv(s, blank) && (step.Count? ==> |step.item| == |blank|)
    ensures LogInv(Next(s, step), blank)
  {
    hide LogInv, Next;
    match step
    case Count(item) => CountKeeps(s, blank, item);
    case ReadLogHead => CountKeeps(s, blank, blank);
    case WriteCell => WriteKeeps(s, blank);
    case PublishHead => PublishKeeps(s, blank);
    case CopyCell => CopyKeeps(s, blank);
    case _ => ReadKeeps(s, blank, step);
  }

  /** Every entry has the cells of a log record. */
  ghost predicate Records<T>(steps: seq<Step<T>>, w: nat) {
    forall k :: 0 <= k < |steps| && steps[k].Count? ==> |steps[k].item| == w
  }

  lemma {:induction false} RunKeeps<T>(s: State<T>, blank: seq<T>, steps: seq<Step<T>>)
    requires LogInv(s, blank) && Records(steps, |blank|)
    ensures LogInv(Run(s, steps), blank)
    decreases |steps|
  {
    hide LogInv, Next;
    if steps != [] {
      StepKeeps(s, blank, steps[0]);
      assert Records(steps[1..], |blank|);
      RunKeeps(Next(s, steps[0]), blank, steps[1..]);
    }
  }

  // ------------------------------------------------------------------
  // What a drain returns
  // ------------------------------------------------------------------

  /** d is the end of the history h, newest first. */
  ghost predicate EndsWith<T>(h: seq<seq<T>>, d: seq<seq<T>>) {
    |d| <= |h| && forall i :: 0 <= i < |d| ==> d[i] == h[|h| - 1 - i]
  }

  /**
    Under every interleaving, a finished drain that has read no overwritten cell returns
    the end of the history as of its reading of head if and only if it returns no more
    records than there were transitions then; what it returns beyond these are blank
    records, transitions that were never performed.  It has read no overwritten cell unless
    more than 32 - toCopy transitions have begun their entries since that reading.
   */
  lemma {:induction false} DrainedExactly<T>(blank: seq<T>, steps: seq<Step<T>>)
    requires |blank| >= 1 && Records(steps, |blank|)
    ensures var s := Run(Start(blank), steps);
      Finished(s) ==>
        var r := s.reader;
        && r.known <= |s.history|
        && (Begun(s) <= r.known + MAX_TRANSITION_LOG - r.toCopy ==> !s.late)
        && (!s.late ==>
              && (EndsWith(s.history[..r.known], r.copied) <==> r.toCopy <= r.known)
              && (forall i :: r.known <= i < r.toCopy ==> r.copied[i] == blank))
  {
    StartInv(blank);
    RunKeeps(Start(blank), blank, steps);
    var s := Run(Start(blank), steps);
    if Finished(s) && !s.late {
      var r := s.reader;
      assert CopiedOk(s.history, blank, r.known, r.copied, r.got);
    }
  }

  /**
    How many records that is: if the count still stands at the number logged as head was
    read, at both readings, as many as the count, the log and the buffer allow.
   */
  lemma SteadyCount<T>(s: State<T>)
    requires s.reader.SawHead? && s.count == s.reader.known
    ensures var t := Next(Next(s, ReadCount), ReadCountAgain);
      && t.reader.Copying? && t.reader.known == s.reader.known
      && t.reader.toCopy == Min(Min(s.count, MAX_TRANSITION_LOG), s.reader.size) <= t.reader.known
  {
  }

  // ------------------------------------------------------------------
  // Runs of whole commits and copies
  // ------------------------------------------------------------------

  function Times<T>(step: Step<T>, n: nat): (steps: seq<Step<T>>)
    ensures |steps| == n
  {
    seq(n, _ => step)
  }

  /** The accesses of one commit. */
  function Commit<T>(item: seq<T>): seq<Step<T>> {
    [Count(item), ReadLogHead] + Times(WriteCell, |item|) + [PublishHead]
  }

  lemma {:induction false} RunOn<T>(s: State<T>, a: seq<Step<T>>, b: seq<Step<T>>)
    ensures Run(s, a + b) == Run(Run(s, a), b)
    decreases |a|
  {
    hide Next;
    if a == [] {
      assert a + b == b;
    } else {
      assert (a + b)[1..] == a[1..] + b;
      RunOn(Next(s, a[0]), a[1..], b);
    }
  }

  lemma RunOne<T>(s: State<T>, a: Step<T>)
    ensures Run(s, [a]) == Next(s, a)
  {
    hide Next;
    assert [a][1..] == [];
    assert Run(s, [a]) == Run(Next(s, a), []);
  }

  lemma RunTwo<T>(s: State<T>, a: Step<T>, b: Step<T>)
    ensures Run(s, [a, b]) == Next(Next(s, a), b)
  {
    hide Next;
    assert [a, b] == [a] + [b];
    RunOn(s, [a], [b]);
    RunOne(s, a);
    RunOne(Next(s, a), b);
  }

  lemma {:induction false} WritesRun<T>(s: State<T>, n: nat)
    requires s.writer.Writing? && s.writer.slot < |s.slots| && s.writer.cell + n == |s.writer.item|
    requires |s.slots[s.writer.slot]| == |s.writer.item|
    requires s.slots[s.writer.slot][..s.writer.cell] == s.writer.item[..s.writer.cell]
    ensures var x := s.writer.slot;
      Run(s, Times(WriteCell, n))
      == s.(slots := s.slots[x := s.writer.item], writer := Writing(s.writer.item, x, |s.writer.item|))
    decreases n
  {
    var x, c, item := s.writer.slot, s.writer.cell, s.writer.item;
    if n == 0 {
      assert s.slots[x] == s.slots[x][..c] == item[..c] == item;
      assert s.slots[x := item] == s.slots;
    } else {
      var t := Next(s, WriteCell);
      assert Times<T>(WriteCell, n)[1..] == Times<T>(WriteCell, n - 1);
      assert t.slots[x][..c + 1] == item[..c + 1];
      WritesRun(t, n - 1);
      assert t.slots[x := item] == s.slots[x := item];
    }
  }

  lemma BeginCommit<T>(s: State<T>, item: seq<T>)
    requires s.writer.Idle?
    ensures Next(Next(s, Count(item)), ReadLogHead)
            == s.(count := Increment32(s.count), writer := Writing(item, s.head, 0))
  {
  }

  lemma EndCommit<T>(s: State<T>)
    requires s.writer.Writing? && s.writer.cell == |s.writer.item|
    ensures Next(s, PublishHead)
            == s.(head := (s.writer.slot + 1) % MAX_TRANSITION_LOG, history := s.history + [s.writer.item],
                  writer := Idle)
  {
  }

  lemma CommitRun<T>(s: State<T>, item: seq<T>)
    requires s.writer.Idle? && s.head < |s.slots| && |s.slots[s.head]| == |item|
    ensures Run(s, Commit(item))
            == s.(slots := s.slots[s.head := item], head := (s.head + 1) % MAX_TRANSITION_LOG,
                  count := Increment32(s.count), history := s.history + [item])
  {
    hide Run, Next, Times, Increment32;
    var begin, writes := [Count(item), ReadLogHead], Times<T>(WriteCell, |item|);
    RunTwo(s, Count(item), ReadLogHead);
    BeginCommit(s, item);
    var t := Run(s, begin);
    WritesRun(t, |item|);
    var u := Run(t, writes);
    RunOn(s, begin, writes);
    RunOn(s, begin + writes, [PublishHead]);
    RunOne(u, PublishHead);
    EndCommit(u);
  }

  lemma {:induction false} CopiesRun<T>(s: State<T>, n: nat)
    requires s.reader.Copying? && |s.reader.copied| < s.reader.toCopy && |s.slots| == MAX_TRANSITION_LOG && n >= 1
    requires |s.reader.got| + n == |s.slots[Index(s.reader.head, |s.reader.copied|)]|
    ensures var r, slot := s.reader, s.slots[Index(s.reader.head, |s.reader.copied|)];
      var t := Run(s, Times(CopyCell, n));
      && t == s.(reader := t.reader, late := t.late)
      && t.reader == r.(copied := r.copied + [r.got + slot[|r.got|..]], got := [])
    decreases n
  {
    hide Next, Index;
    var r, slot := s.reader, s.slots[Index(s.reader.head, |s.reader.copied|)];
    var t := Next(s, CopyCell);
    OneCopied(s);
    assert Times<T>(CopyCell, n)[1..] == Times<T>(CopyCell, n - 1);
    if n == 1 {
      assert Run(t, Times(CopyCell, 0)) == t;
      assert r.got + [slot[|r.got|]] == r.got + slot[|r.got|..];
    } else {
      CopiesRun(t, n - 1);
      assert r.got + [slot[|r.got|]] + slot[|r.got| + 1..] == r.got + slot[|r.got|..];
    }
  }

  // ------------------------------------------------------------------
  // Drains that return something else
  // ------------------------------------------------------------------

  /**
    The first transition between the drain's reading of head and of the count, or a drain
    within the commit, behind its count: the drain returns a blank record, a transition
    that was never performed.
   */
  lemma PhantomTransition<T>(blank: seq<T>, item: seq<T>)
    requires |item| == |blank| >= 1
    ensures var s := Run(Run(Run(Start(blank), [StartDrain(1)]), Commit(item)),
                         [ReadCount, ReadCountAgain] + Times(CopyCell, |blank|));
      Finished(s) && s.reader.copied == [blank] && s.history == [item]
    ensures var s := Run(Run(Start(blank), [Count(item), StartDrain(1)]),
                         [ReadCount, ReadCountAgain] + Times(CopyCell, |blank|));
      Finished(s) && s.reader.copied == [blank] && s.history == []
  {
    var s0 := Start(blank);
    RunOne(s0, StartDrain(1));
    var s1 := Next(s0, StartDrain(1));
    CommitRun(s1, item);
    PhantomCopied(Run(s1, Commit(item)), blank);
    RunTwo(s0, Count(item), StartDrain(1));
    PhantomCopied(Next(Next(s0, Count(item)), StartDrain(1)), blank);
  }

  lemma PhantomCopied<T>(s: State<T>, blank: seq<T>)
    requires s.reader == SawHead(0, 0, 1) && s.count == 1 && |blank| >= 1
    requires |s.slots| == MAX_TRANSITION_LOG && s.slots[MAX_TRANSITION_LOG - 1] == blank
    ensures var t := Run(s, [ReadCount, ReadCountAgain] + Times(CopyCell, |blank|));
      Finished(t) && t.reader.copied == [blank] && t.history == s.history
  {
    RunTwo(s, ReadCount, ReadCountAgain);
    RunOn(s, [ReadCount, ReadCountAgain], Times(CopyCell, |blank|));
    var t := Next(Next(s, ReadCount), ReadCountAgain);
    assert t.reader == Copying(0, 0, 1, [], []);
    CopiesRun(t, |blank|);
    assert [] + blank[0..] == blank;
  }

  /** The 33rd transition between the two readings of the count: the drain sets out to return 33 records from 32. */
  lemma CountOutrunsLog<T>(s: State<T>, blank: seq<T>, item: seq<T>, size: nat)
    requires LogInv(s, blank) && s.writer.Idle? && s.reader.Away? && |s.history| == MAX_TRANSITION_LOG
    requires MAX_TRANSITION_LOG < size < 256
    ensures var t := Next(Next(Next(Next(s, StartDrain(size)), ReadCount), Count(item)), ReadCountAgain);
      t.reader.Copying? && t.reader.toCopy == 33 > t.reader.known
  {
  }

  /** A commit just before the drain copies its 32nd record: the drain returns the newest transition as the oldest. */
  lemma OvertakenDrain<T>(s: State<T>, blank: seq<T>, item: seq<T>)
    requires LogInv(s, blank) && s.writer.Idle? && |item| == |blank|
    requires s.reader.Copying? && s.reader.known == |s.history| && s.reader.toCopy == MAX_TRANSITION_LOG
    requires |s.reader.copied| == MAX_TRANSITION_LOG - 1 && s.reader.got == []
    ensures var t := Run(s, Commit(item) + Times(CopyCell, |blank|));
      Finished(t) && t.late && t.reader.copied == s.reader.copied + [item] && t.history == s.history + [item]
  {
    CommitRun(s, item);
    RunOn(s, Commit(item), Times(CopyCell, |blank|));
    var u := Run(s, Commit(item));
    BackwardIndex(|s.history|, MAX_TRANSITION_LOG - 1);
    RoundAgain(|s.history| - MAX_TRANSITION_LOG);
    CopiesRun(u, |blank|);
    LateCopies(u, |blank|);
    assert [] + item[0..] == item;
  }

  lemma GrownMore<T>(copied: seq<seq<T>>, got: seq<T>, slot: seq<T>)
    requires |got| < |slot|
    ensures |got| + 1 < |slot| ==> Grown(copied, got, slot[|got|], |slot|) == copied
  {
  }

  lemma {:induction false} LateCopies<T>(s: State<T>, n: nat)
    requires s.reader.Copying? && |s.reader.copied| < s.reader.toCopy && |s.slots| == MAX_TRANSITION_LOG && n >= 1
    requires |s.reader.got| + n == |s.slots[Index(s.reader.head, |s.reader.copied|)]|
    requires |s.history| > s.reader.known + MAX_TRANSITION_LOG - 1 - |s.reader.copied|
    ensures Run(s, Times(CopyCell, n)).late
    decreases n
  {
    hide Next, Index, Grown;
    OneCopied(s);
    GrownMore(s.reader.copied, s.reader.got, s.slots[Index(s.reader.head, |s.reader.copied|)]);
    var t := Next(s, CopyCell);
    assert Times<T>(CopyCell, n)[1..] == Times<T>(CopyCell, n - 1);
    if n > 1 { LateCopies(t, n - 1); } else { assert Run(t, Times(CopyCell, 0)) == t; }
  }
}
