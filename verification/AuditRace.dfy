/**
  The audit ring of src/IamSecurityController.cpp under its two threads: AppendAuditEntry,
  which never looks at tail, against DrainAuditLog, one shared memory access at a time.

  The accesses are those of module SpscRing without the test for full.  An append reads
  head, writes the cells of the entry and publishes head; a drain reads tail and head,
  copies the cells of one entry and publishes tail, once per entry.
 */
module AuditRace {
  import opened Modulo
  import opened SpscRing

  datatype Move<T> =
    | StartAppend(item: seq<T>)
    | Access(step: Step<T>)

  function Next<T(==)>(s: Ring<T>, m: Move<T>): Ring<T> {
    match m
    case StartAppend(item) => if s.producer.Ready? then s.(producer := Filling(item, s.head)) else s
    case Access(step) => if step.ReadHead? || step.CheckFull? then s else Apply(s, step)
  }

  function RunAll<T(==)>(s: Ring<T>, moves: seq<Move<T>>): Ring<T>
    decreases |moves|
  {
    if moves == [] then s else RunAll(Next(s, moves[0]), moves[1..])
  }

  // ------------------------------------------------------------------
  // Invariant
  // ------------------------------------------------------------------

  /** Entries that no longer need their slot: drained, or copied completely. */
  function Done<T>(s: Ring<T>, w: nat): nat {
    |s.delivered| + (if s.consumer.Copying? && |s.consumer.got| == w then 1 else 0)
  }

  /** n slots of w cells; indices count the history; every entry that still needs its slot is intact in it. */
  ghost predicate Laid<T>(s: Ring<T>, n: nat, w: nat) {
    && n >= 2 && w >= 1 && |s.slots| == n
    && (forall i :: 0 <= i < n ==> |s.slots[i]| == w)
    && (forall i :: 0 <= i < |s.published| ==> |s.published[i]| == w)
    && s.head == |s.published| % n && s.tail == |s.delivered| % n
    && s.delivered <= s.published
    && Done(s, w) <= |s.published| <= Done(s, w) + n
    && (forall i :: Done(s, w) <= i < |s.published| ==> s.slots[i % n] == s.published[i])
  }

  ghost predicate ProducerFits<T>(s: Ring<T>, n: nat, w: nat) {
    match s.producer
    case Ready => true
    case SawHead(_, _) => false
    case Filling(_, slot) => slot == s.head && |s.published| < Done(s, w) + n
  }

  ghost predicate ConsumerFits<T>(s: Ring<T>, w: nat) {
    match s.consumer
    case Waiting => true
    case SawTail(tail) => tail == s.tail
    case Copying(slot, got) =>
      slot == s.tail && |s.delivered| < |s.published| && |got| <= w && got <= s.published[|s.delivered|]
  }

  ghost predicate RaceInv<T>(s: Ring<T>, n: nat, w: nat) {
    Laid(s, n, w) && ProducerFits(s, n, w) && ConsumerFits(s, w)
  }

  /** Fewer than n entries still need their slot, so the slot at head is free. */
  predicate Room<T>(s: Ring<T>, n: nat, w: nat) {
    |s.published| < Done(s, w) + n
  }

  lemma EmptyRace<T>(n: nat, blank: seq<T>)
    requires n >= 2 && |blank| >= 1
    ensures RaceInv(Empty(n, blank), n, |blank|)
  {
  }

  lemma WriteFits<T>(s: Ring<T>, n: nat, w: nat, cell: nat, value: T)
    requires RaceInv(s, n, w)
    ensures RaceInv(Apply(s, WriteCell(cell, value)), n, w)
  {
    if s.producer.Filling? {
      forall i | Done(s, w) <= i < |s.published| ensures i % n != s.head {
        ModDistinct(i, |s.published|, n);
      }
    }
  }

  lemma PublishFits<T>(s: Ring<T>, n: nat, w: nat)
    requires RaceInv(s, n, w)
    ensures RaceInv(Apply(s, PublishHead), n, w)
  {
    var s' := Apply(s, PublishHead);
    if s' != s {
      ModStep(|s.published|, n);
      forall i | Done(s, w) <= i < |s'.published| ensures s'.slots[i % n] == s'.published[i] {
        if i < |s.published| { assert s'.published[i] == s.published[i]; }
      }
      assert s'.delivered <= s'.published;
    }
  }

  lemma DrainFits<T>(s: Ring<T>, n: nat, w: nat, step: Step<T>)
    requires RaceInv(s, n, w) && ByConsumer(step)
    ensures RaceInv(Apply(s, step), n, w)
  {
    var d := |s.delivered|;
    match step
    case ReadTail =>
    case CheckEmpty =>
    case CopyCell =>
      if s.consumer.Copying? && |s.consumer.got| < w {
        assert s.slots[d % n] == s.published[d];
      }
    case PublishTail =>
      if s.consumer.Copying? && |s.consumer.got| == w {
        ModStep(d, n);
        assert s.consumer.got == s.published[d];
        assert Apply(s, step).delivered == s.published[..d + 1];
      }
  }

  lemma NextFits<T>(s: Ring<T>, n: nat, w: nat, m: Move<T>)
    requires RaceInv(s, n, w) && (m.StartAppend? && s.producer.Ready? ==> Room(s, n, w))
    ensures RaceInv(Next(s, m), n, w)
  {
    if m.Access? {
      match m.step
      case ReadHead(_) =>
      case CheckFull =>
      case WriteCell(cell, value) => WriteFits(s, n, w, cell, value);
      case PublishHead => PublishFits(s, n, w);
      case ReadTail => DrainFits(s, n, w, m.step);
      case CheckEmpty => DrainFits(s, n, w, m.step);
      case CopyCell => DrainFits(s, n, w, m.step);
      case PublishTail => DrainFits(s, n, w, m.step);
    }
  }

  /** No append starts while all n slots are still needed. */
  predicate NeverLapped<T(==)>(s: Ring<T>, n: nat, w: nat, moves: seq<Move<T>>)
    decreases |moves|
  {
    moves == []
    || ((moves[0].StartAppend? && s.producer.Ready? ==> Room(s, n, w))
        && NeverLapped(Next(s, moves[0]), n, w, moves[1..]))
  }

  lemma {:induction false} RunFits<T>(s: Ring<T>, n: nat, w: nat, moves: seq<Move<T>>)
    requires RaceInv(s, n, w) && NeverLapped(s, n, w, moves)
    ensures RaceInv(RunAll(s, moves), n, w)
    decreases |moves|
  {
    hide RaceInv, Next, Room;
    if moves != [] {
      NextFits(s, n, w, moves[0]);
      RunFits(Next(s, moves[0]), n, w, moves[1..]);
    }
  }

  // ------------------------------------------------------------------
  // Main results
  // ------------------------------------------------------------------

  /**
    Under every interleaving in which no append starts while all n slots are still needed:
    what has been drained is a prefix of what has been recorded, every entry that is still
    to be copied is intact in its slot, and a drain finds nothing exactly when the number
    of undrained entries is a multiple of n.
   */
  lemma {:induction false} DrainedIntact<T>(n: nat, blank: seq<T>, moves: seq<Move<T>>)
    requires n >= 2 && |blank| >= 1 && NeverLapped(Empty(n, blank), n, |blank|, moves)
    ensures var s := RunAll(Empty(n, blank), moves);
      && s.delivered <= s.published && |s.slots| == n
      && (forall i :: Done(s, |blank|) <= i < |s.published| ==> s.slots[i % n] == s.published[i])
      && (s.consumer.SawTail? ==>
            (Apply(s, CheckEmpty).consumer.Waiting? <==> s.Pending() == 0 || s.Pending() == n))
  {
    EmptyRace(n, blank);
    RunFits(Empty(n, blank), n, |blank|, moves);
    var s := RunAll(Empty(n, blank), moves);
    if s.consumer.SawTail? { SameSlot(|s.delivered|, |s.published|, n); }
  }

  /** Positions at most n apart share a slot only if they are equal or n apart. */
  lemma SameSlot(d: nat, p: nat, n: nat)
    requires n >= 2 && d <= p <= d + n
    ensures d % n == p % n <==> p == d || p == d + n
  {
    if p == d + n {
      ModShift(d, n);
    } else if d < p {
      ModDistinct(d, p, n);
    }
  }

  function Accesses<T>(steps: seq<Step<T>>): (moves: seq<Move<T>>)
    ensures |moves| == |steps|
  {
    seq(|steps|, i requires 0 <= i < |steps| => Access(steps[i]))
  }

  predicate Shared<T>(steps: seq<Step<T>>) {
    forall k :: 0 <= k < |steps| ==> !steps[k].ReadHead? && !steps[k].CheckFull?
  }

  lemma {:induction false} AccessRun<T>(s: Ring<T>, steps: seq<Step<T>>)
    requires Shared(steps)
    ensures RunAll(s, Accesses(steps)) == Run(s, steps)
    decreases |steps|
  {
    hide Apply;
    if steps != [] {
      assert Accesses(steps)[1..] == Accesses(steps[1..]);
      assert Shared(steps[1..]);
      AccessRun(Apply(s, steps[0]), steps[1..]);
    }
  }

  lemma {:induction false} RunAllOn<T>(s: Ring<T>, a: seq<Move<T>>, b: seq<Move<T>>)
    ensures RunAll(s, a + b) == RunAll(RunAll(s, a), b)
    decreases |a|
  {
    hide Next;
    if a == [] {
      assert a + b == b;
    } else {
      assert (a + b)[1..] == a[1..] + b;
      RunAllOn(Next(s, a[0]), a[1..], b);
    }
  }

  /** The writes of one append, uninterrupted. */
  lemma {:induction false} WritesLand<T>(s: Ring<T>, item: seq<T>, from: nat)
    requires s.producer.Filling? && s.producer.item == item && s.producer.slot < |s.slots| && from <= |item|
    requires |s.slots[s.producer.slot]| == |item| && s.slots[s.producer.slot][..from] == item[..from]
    ensures Run(s, WritesFrom(item, from))
            == s.(slots := s.slots[s.producer.slot := item], head := (s.producer.slot + 1) % |s.slots|,
                  producer := Ready, published := s.published + [item])
    decreases |item| - from
  {
    var x := s.producer.slot;
    if from == |item| {
      assert [PublishHead] + [] == WritesFrom(item, from);
      RunOne(s, PublishHead, []);
      assert s.slots[x] == s.slots[x][..from] == item[..from] == item;
      assert s.slots[x := item] == s.slots;
    } else {
      var step := WriteCell(from, item[from]);
      RunOne(s, step, WritesFrom(item, from + 1));
      var s1 := Apply(s, step);
      assert s1.slots[x][..from + 1] == item[..from + 1];
      WritesLand(s1, item, from + 1);
      assert s1.slots[x := item] == s.slots[x := item];
    }
  }

  lemma {:induction false} WritesShared<T>(item: seq<T>, from: nat)
    requires from <= |item|
    ensures Shared(WritesFrom(item, from))
    decreases |item| - from
  {
    if from < |item| { WritesShared(item, from + 1); }
  }

  /** The rest of a copy, uninterrupted: the cells still to be copied come from the slot as it is now. */
  lemma {:induction false} CopiesLand<T>(s: Ring<T>, cells: nat)
    requires s.consumer.Copying? && s.consumer.slot < |s.slots|
    requires |s.consumer.got| + cells == |s.slots[s.consumer.slot]|
    ensures var s' := Run(s, CopiesOf(cells));
      && s'.published == s.published && s'.slots == s.slots && s'.head == s.head && s'.producer == s.producer
      && s'.tail == (s.consumer.slot + 1) % |s.slots| && s'.consumer.Waiting?
      && s'.delivered == s.delivered + [s.consumer.got + s.slots[s.consumer.slot][|s.consumer.got|..]]
    decreases cells
  {
    var x, got := s.consumer.slot, s.consumer.got;
    if cells == 0 {
      assert [PublishTail] + [] == CopiesOf<T>(0);
      RunOne(s, PublishTail, []);
      assert got + s.slots[x][|got|..] == got;
    } else {
      RunOne(s, CopyCell, CopiesOf(cells - 1));
      CopiesLand(Apply(s, CopyCell), cells - 1);
      assert got + [s.slots[x][|got|]] + s.slots[x][|got| + 1..] == got + s.slots[x][|got|..];
    }
  }

  lemma {:induction false} CopiesShared<T>(cells: nat)
    ensures Shared(CopiesOf<T>(cells))
    decreases cells
  {
    if cells > 0 { CopiesShared<T>(cells - 1); }
  }

  /** The accesses that bring the drain from where it stands to its next delivery, or past the one it has copied. */
  function NextDelivery<T>(consumer: Consumer<T>, w: nat): seq<Step<T>> {
    match consumer
    case Waiting => TakeProgram(w)
    case SawTail(_) => [CheckEmpty] + CopiesOf(w)
    case Copying(_, got) =>
      if |got| < w then CopiesOf(w - |got|) else [PublishTail] + TakeProgram(w)
  }

  lemma DeliveryShared<T>(consumer: Consumer<T>, w: nat)
    ensures Shared(NextDelivery(consumer, w))
  {
    CopiesShared<T>(w);
    if consumer.Copying? && |consumer.got| < w { CopiesShared<T>(w - |consumer.got|); }
  }

  lemma TakeLands<T>(s: Ring<T>, w: nat)
    requires s.consumer.Waiting? && s.tail < |s.slots| && |s.slots[s.tail]| == w && s.tail != s.head
    ensures var s' := Run(s, TakeProgram(w));
      s'.published == s.published && s'.delivered == s.delivered + [s.slots[s.tail]]
  {
    RunTwo(s, ReadTail, CheckEmpty, CopiesOf(w));
    var t := Apply(Apply(s, ReadTail), CheckEmpty);
    assert t == s.(consumer := Copying(s.tail, []));
    CopiesLand(t, w);
    assert [] + s.slots[s.tail][0..] == s.slots[s.tail];
  }

  lemma CheckLands<T>(s: Ring<T>, w: nat)
    requires s.consumer == SawTail(s.tail) && s.tail < |s.slots| && |s.slots[s.tail]| == w && s.tail != s.head
    ensures var s' := Run(s, [CheckEmpty] + CopiesOf(w));
      s'.published == s.published && s'.delivered == s.delivered + [s.slots[s.tail]]
  {
    RunOne(s, CheckEmpty, CopiesOf(w));
    var t := Apply(s, CheckEmpty);
    assert t == s.(consumer := Copying(s.tail, []));
    CopiesLand(t, w);
    assert [] + s.slots[s.tail][0..] == s.slots[s.tail];
  }

  lemma DoneLands<T>(s: Ring<T>, w: nat, next: nat)
    requires s.consumer.Copying? && s.consumer.slot < |s.slots| && |s.slots[s.consumer.slot]| == |s.consumer.got| == w
    requires next == (s.consumer.slot + 1) % |s.slots| && |s.slots[next]| == w && next != s.head
    ensures var s' := Run(s, [PublishTail] + TakeProgram(w));
      s'.published == s.published && s'.delivered == s.delivered + [s.consumer.got] + [s.slots[next]]
  {
    RunOne(s, PublishTail, TakeProgram(w));
    TakeLands(Apply(s, PublishTail), w);
  }

  /**
    Once the slot of the oldest entry that still needs it holds something else, the drain
    delivers at least the last cell of that.
   */
  lemma OverwrittenIsDelivered<T>(s: Ring<T>, n: nat, w: nat, item: seq<T>)
    requires n >= 2 && w >= 1 && |item| == w && |s.slots| == n && s.tail == |s.delivered| % n && s.tail < n
    requires Done(s, w) % n < n && s.slots[Done(s, w) % n] == item && s.head != Done(s, w) % n
    requires s.consumer.SawTail? ==> s.consumer.tail == s.tail
    requires s.consumer.Copying? ==> s.consumer.slot == s.tail && |s.consumer.got| <= w && |s.slots[s.tail]| == w
    ensures var s' := Run(s, NextDelivery(s.consumer, w));
      && s'.published == s.published && |s'.delivered| == Done(s, w) + 1
      && |s'.delivered[Done(s, w)]| == w && s'.delivered[Done(s, w)][w - 1] == item[w - 1]
  {
    hide Run, Apply, CopiesOf, TakeProgram;
    match s.consumer
    case Waiting => TakeLands(s, w);
    case SawTail(_) => CheckLands(s, w);
    case Copying(_, got) =>
      if |got| < w {
        CopiesLand(s, w - |got|);
      } else {
        ModStep(|s.delivered|, n);
        DoneLands(s, w, Done(s, w) % n);
      }
  }

  predicate NoStarts<T>(moves: seq<Move<T>>) {
    forall k :: 0 <= k < |moves| ==> moves[k].Access?
  }

  lemma {:induction false} NoStartsNeverLap<T>(s: Ring<T>, n: nat, w: nat, moves: seq<Move<T>>)
    requires NoStarts(moves)
    ensures NeverLapped(s, n, w, moves)
    decreases |moves|
  {
    hide Next, Room;
    if moves != [] {
      assert moves[0].Access?;
      assert NoStarts(moves[1..]);
      NoStartsNeverLap(Next(s, moves[0]), n, w, moves[1..]);
    }
  }

  /** An append while all n slots are needed overwrites the oldest entry; a drain can then deliver the new one. */
  lemma LappedDelivery<T>(s: Ring<T>, n: nat, w: nat, item: seq<T>) returns (moves: seq<Move<T>>)
    requires RaceInv(s, n, w) && s.producer.Ready? && !Room(s, n, w) && |item| == w
    requires item[w - 1] != s.published[Done(s, w)][w - 1]
    ensures NoStarts(moves)
    ensures var s' := RunAll(Next(s, StartAppend(item)), moves); !(s'.delivered <= s'.published)
  {
    var d, p := Done(s, w), |s.published|;
    var s1 := Next(s, StartAppend(item));
    var writes := WritesFrom(item, 0);
    ModShift(d, n);
    WritesShared(item, 0);
    WritesLand(s1, item, 0);
    var s2 := Run(s1, writes);
    var copies := NextDelivery(s2.consumer, w);
    DeliveryShared(s2.consumer, w);
    NextHead(p, d, n);
    OverwrittenIsDelivered(s2, n, w, item);
    AccessRun(s1, writes);
    AccessRun(s2, copies);
    RunAllOn(s1, Accesses(writes), Accesses(copies));
    moves := Accesses(writes) + Accesses(copies);
    var s3 := Run(s2, copies);
    assert s3.published[d] == s.published[d] && s3.delivered[d] != s3.published[d];
  }

  lemma NextHead(p: nat, d: nat, n: nat)
    requires n >= 2 && p == d + n
    ensures p % n == d % n && (p % n + 1) % n != d % n
  {
    ModShift(d, n);
    ModStep(p, n);
    ModShift(d + 1, n);
    ModDistinct(d, d + 1, n);
  }

  /**
    An append whose last cell, the time stamp, differs from that of the oldest entry still
    needed keeps the drained entries a prefix of the recorded ones, on every continuation
    of accesses, if and only if a slot is free as it starts.
   */
  lemma {:induction false} AppendSafeExactly<T(!new)>(s: Ring<T>, n: nat, w: nat, item: seq<T>)
    requires RaceInv(s, n, w) && s.producer.Ready? && |item| == w
    requires !Room(s, n, w) ==> item[w - 1] != s.published[Done(s, w)][w - 1]
    ensures (forall moves: seq<Move<T>> | NoStarts(moves) ::
               RunAll(Next(s, StartAppend(item)), moves).delivered
               <= RunAll(Next(s, StartAppend(item)), moves).published)
            <==> Room(s, n, w)
  {
    hide RunAll, Next, Room, Done;
    if Room(s, n, w) {
      NextFits(s, n, w, StartAppend(item));
      forall moves: seq<Move<T>> | NoStarts(moves)
        ensures RunAll(Next(s, StartAppend(item)), moves).delivered
                <= RunAll(Next(s, StartAppend(item)), moves).published
      {
        NoStartsNeverLap(Next(s, StartAppend(item)), n, w, moves);
        RunFits(Next(s, StartAppend(item)), n, w, moves);
      }
    } else {
      var moves := LappedDelivery(s, n, w, item);
    }
  }

  lemma AccessFits<T>(s: Ring<T>, n: nat, w: nat, steps: seq<Step<T>>)
    requires RaceInv(s, n, w) && Shared(steps)
    ensures RaceInv(Run(s, steps), n, w)
  {
    hide RaceInv, Run, RunAll, NeverLapped;
    AccessRun(s, steps);
    NoStartsNeverLap(s, n, w, Accesses(steps));
    RunFits(s, n, w, Accesses(steps));
  }

  lemma AppendBetween<T>(
      s: Ring<T>, before: seq<Step<T>>, item: seq<T>, writes: seq<Step<T>>, copies: seq<Step<T>>)
    requires Shared(before) && Shared(writes) && Shared(copies)
    ensures RunAll(s, Accesses(before) + [StartAppend(item)] + Accesses(writes) + Accesses(copies))
            == Run(Run(Next(Run(s, before), StartAppend(item)), writes), copies)
  {
    hide Run, Next, Apply, Shared;
    var a, b := Accesses(before), [StartAppend(item)];
    var s1 := Run(s, before);
    var s2 := Next(s1, StartAppend(item));
    AccessRun(s, before);
    assert b[1..] == [];
    assert RunAll(s1, b) == RunAll(s2, []) == s2;
    AccessRun(s2, writes);
    AccessRun(Run(s2, writes), copies);
    RunAllOn(s, a, b);
    RunAllOn(s, a + b, Accesses(writes));
    RunAllOn(s, a + b + Accesses(writes), Accesses(copies));
  }

  /** After an append that found n - 1 waiting, head has met tail. */
  lemma LooksEmpty<T>(s: Ring<T>, n: nat, w: nat, item: seq<T>)
    requires RaceInv(s, n, w) && s.producer.Ready? && s.consumer.Waiting? && s.Pending() == n - 1 && |item| == w
    ensures Run(Run(Next(s, StartAppend(item)), WritesFrom(item, 0)), [ReadTail, CheckEmpty]).consumer.Waiting?
  {
    var s1 := Next(s, StartAppend(item));
    WritesLand(s1, item, 0);
    var s2 := Run(s1, WritesFrom(item, 0));
    ModStep(|s.published|, n);
    ModShift(|s.delivered|, n);
    assert s2.head == s2.tail;
    var look: seq<Step<T>> := [ReadTail, CheckEmpty];
    assert look + [] == look;
    RunTwo(s2, ReadTail, CheckEmpty, []);
  }

  /**
    With n - 1 entries undrained, a drain reads tail and head, one append comes and goes,
    and the drain copies and stores tail.  Nothing is lost: the drained entry is the oldest,
    the new one is recorded, and n - 1 entries lie intact.  One after the other the same
    append makes the ring look empty.
   */
  lemma AppendDuringDrain<T>(s: Ring<T>, n: nat, w: nat, item: seq<T>) returns (moves: seq<Move<T>>)
    requires RaceInv(s, n, w) && s.producer.Ready? && s.consumer.Waiting? && s.Pending() == n - 1 && |item| == w
    ensures var s' := RunAll(s, moves);
      && RaceInv(s', n, w) && s'.consumer.Waiting? && s'.Pending() == n - 1
      && s'.published == s.published + [item] && s'.delivered == s.delivered + [s.published[|s.delivered|]]
    ensures Run(Run(Next(s, StartAppend(item)), WritesFrom(item, 0)), [ReadTail, CheckEmpty]).consumer.Waiting?
  {
    var d, p := |s.delivered|, |s.published|;
    var begin: seq<Step<T>> := [ReadTail, CheckEmpty];
    var writes, copies := WritesFrom(item, 0), CopiesOf<T>(w);
    SameSlot(d, p, n);
    assert begin + [] == begin;
    RunTwo(s, ReadTail, CheckEmpty, []);
    var s1 := Run(s, begin);
    assert s1 == s.(consumer := Copying(s.tail, []));
    var s2 := Next(s1, StartAppend(item));
    CopiesShared<T>(w);
    WritesShared(item, 0);
    AccessFits(s, n, w, begin);
    NextFits(s1, n, w, StartAppend(item));
    AccessFits(s2, n, w, writes);
    AccessFits(Run(s2, writes), n, w, copies);
    WritesLand(s2, item, 0);
    AfterAppend(s2, n, w, item);
    AppendBetween(s, begin, item, writes, copies);
    moves := Accesses(begin) + [StartAppend(item)] + Accesses(writes) + Accesses(copies);
    LooksEmpty(s, n, w, item);
  }

  lemma AfterAppend<T>(s: Ring<T>, n: nat, w: nat, item: seq<T>)
    requires RaceInv(s, n, w) && s.consumer == Copying(s.tail, []) && s.producer == Filling(item, s.head)
    requires s.Pending() == n - 1 && |item| == w
    ensures var s' := Run(Run(s, WritesFrom(item, 0)), CopiesOf(w));
      && s'.consumer.Waiting? && s'.Pending() == n - 1
      && s'.published == s.published + [item] && s'.delivered == s.delivered + [s.published[|s.delivered|]]
  {
    var d := |s.delivered|;
    SameSlot(d, |s.published|, n);
    WritesLand(s, item, 0);
    var t := Run(s, WritesFrom(item, 0));
    assert t.slots[s.tail] == s.slots[d % n] == s.published[d];
    CopiesLand(t, w);
    assert [] + s.published[d][0..] == s.published[d];
  }
}
