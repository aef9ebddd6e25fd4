/**
  A single-producer single-consumer ring at the granularity of its shared memory
  accesses, as both IpcBridge::Send and SoaServiceManager::PublishEvent use it.

  The producer reads head, reads tail, writes the cells of one slot in any order and
  any number of times, then publishes head.  The consumer reads tail, reads head,
  copies the cells of one slot one by one, then publishes tail.  The steps of the two
  sides interleave arbitrarily, so each side works with values of the other side's
  index that may be out of date by the time they are used.  Memory accesses are
  sequentially consistent.
 */
module SpscRing {
  import opened Modulo

  datatype Producer<T> =
    | Ready
    | SawHead(item: seq<T>, head: nat)
    | Filling(item: seq<T>, slot: nat)

  datatype Consumer<T> =
    | Waiting
    | SawTail(tail: nat)
    | Copying(slot: nat, got: seq<T>)

  /**
    The shared memory (head, tail, slots), the private state of both sides, and the
    history of what was published and what was delivered.
   */
  datatype Ring<T> = Ring(
    head: nat, tail: nat, slots: seq<seq<T>>,
    producer: Producer<T>, consumer: Consumer<T>,
    published: seq<seq<T>>, delivered: seq<seq<T>>, refused: nat)
  {
    function Pending(): int {
      |published| - |delivered|
    }
  }

  datatype Step<T> =
    | ReadHead(item: seq<T>)
    | CheckFull
    | WriteCell(cell: nat, value: T)
    | PublishHead
    | ReadTail
    | CheckEmpty
    | CopyCell
    | PublishTail

  /** A zeroed ring of n slots. */
  function Empty<T>(n: nat, blank: seq<T>): Ring<T> {
    Ring(0, 0, seq(n, _ => blank), Ready, Waiting, [], [], 0)
  }

  /** One atomic memory access.  A step that its side is not ready to take changes nothing. */
  function Apply<T(==)>(s: Ring<T>, step: Step<T>): Ring<T> {
    match step
    case ReadHead(item) =>
      if s.producer.Ready? then s.(producer := SawHead(item, s.head)) else s
    case CheckFull =>
      if s.producer.SawHead? && |s.slots| > 0 then
        if (s.producer.head + 1) % |s.slots| == s.tail then
          s.(producer := Ready, refused := s.refused + 1)
        else
          s.(producer := Filling(s.producer.item, s.producer.head))
      else s
    case WriteCell(cell, value) =>
      if s.producer.Filling? && s.producer.slot < |s.slots| && cell < |s.slots[s.producer.slot]| then
        var slot := s.producer.slot;
        s.(slots := s.slots[slot := s.slots[slot][cell := value]])
      else s
    case PublishHead =>
      // The producer's own program writes every cell before this access.
      if s.producer.Filling? && s.producer.slot < |s.slots| && s.slots[s.producer.slot] == s.producer.item then
        s.(head := (s.producer.slot + 1) % |s.slots|, producer := Ready,
           published := s.published + [s.producer.item])
      else s
    case ReadTail =>
      if s.consumer.Waiting? then s.(consumer := SawTail(s.tail)) else s
    case CheckEmpty =>
      if s.consumer.SawTail? then
        if s.consumer.tail == s.head then s.(consumer := Waiting)
        else s.(consumer := Copying(s.consumer.tail, []))
      else s
    case CopyCell =>
      if s.consumer.Copying? && s.consumer.slot < |s.slots|
         && |s.consumer.got| < |s.slots[s.consumer.slot]| then
        s.(consumer := Copying(s.consumer.slot,
                               s.consumer.got + [s.slots[s.consumer.slot][|s.consumer.got|]]))
      else s
    case PublishTail =>
      if s.consumer.Copying? && s.consumer.slot < |s.slots|
         && |s.consumer.got| == |s.slots[s.consumer.slot]| then
        s.(tail := (s.consumer.slot + 1) % |s.slots|, consumer := Waiting,
           delivered := s.delivered + [s.consumer.got])
      else s
  }

  function Run<T(==)>(s: Ring<T>, steps: seq<Step<T>>): Ring<T>
    decreases |steps|
  {
    if steps == [] then s else Run(Apply(s, steps[0]), steps[1..])
  }

  // ------------------------------------------------------------------
  // Invariant
  // ------------------------------------------------------------------

  /** n slots of w cells each; the indices count the history; every unread slot holds its item. */
  ghost predicate Shape<T>(s: Ring<T>, n: nat, w: nat) {
    && n >= 2
    && |s.slots| == n
    && (forall i :: 0 <= i < n ==> |s.slots[i]| == w)
    && s.head == |s.published| % n
    && s.tail == |s.delivered| % n
    && 0 <= s.Pending() <= n - 1
    && s.delivered <= s.published
    && (forall i :: |s.delivered| <= i < |s.published| ==> s.slots[i % n] == s.published[i])
  }

  ghost predicate ProducerOk<T>(s: Ring<T>, n: nat) {
    match s.producer
    case Ready => true
    case SawHead(_, head) => head == s.head
    case Filling(_, slot) => slot == s.head && s.Pending() < n - 1
  }

  ghost predicate ConsumerOk<T>(s: Ring<T>) {
    match s.consumer
    case Waiting => true
    case SawTail(tail) => tail == s.tail
    case Copying(slot, got) =>
      slot == s.tail && s.Pending() > 0 && got <= s.published[|s.delivered|]
  }

  ghost predicate Inv<T>(s: Ring<T>, n: nat, w: nat) {
    Shape(s, n, w) && ProducerOk(s, n) && ConsumerOk(s)
  }

  lemma EmptyInv<T>(n: nat, blank: seq<T>)
    requires n >= 2
    ensures Inv(Empty(n, blank), n, |blank|)
  {
  }

  lemma PendingVerdicts<T>(s: Ring<T>, n: nat, w: nat)
    requires Shape(s, n, w)
    ensures (s.head + 1) % n == s.tail <==> s.Pending() == n - 1
    ensures s.head == s.tail <==> s.Pending() == 0
  {
    RingFacts(|s.delivered|, |s.published|, n);
  }

  // ------------------------------------------------------------------
  // Every step keeps the invariant
  // ------------------------------------------------------------------

  /** Writing to the slot being filled leaves every unread slot alone. */
  lemma WriteKeepsUnread<T>(s: Ring<T>, n: nat, w: nat, cell: nat, value: T)
    requires Inv(s, n, w) && s.producer.Filling? && cell < w
    ensures var s' := Apply(s, WriteCell(cell, value));
      Inv(s', n, w) && forall i :: |s.delivered| <= i < |s.published| ==> s'.slots[i % n] == s.slots[i % n]
  {
    forall i | |s.delivered| <= i < |s.published| ensures i % n != s.head {
      ModDistinct(i, |s.published|, n);
    }
  }

  lemma PublishKeeps<T>(s: Ring<T>, n: nat, w: nat)
    requires Inv(s, n, w)
    ensures Inv(Apply(s, PublishHead), n, w)
  {
    var s' := Apply(s, PublishHead);
    if s' != s {
      ModStep(|s.published|, n);
      assert |s'.published| == |s.published| + 1;
      forall i | |s'.delivered| <= i < |s'.published| ensures s'.slots[i % n] == s'.published[i] {
        if i < |s.published| { assert s'.published[i] == s.published[i]; }
      }
      assert s'.delivered <= s'.published;
    }
  }

  lemma ConsumeKeeps<T>(s: Ring<T>, n: nat, w: nat)
    requires Inv(s, n, w)
    ensures Inv(Apply(s, CopyCell), n, w) && Inv(Apply(s, PublishTail), n, w)
  {
    if s.consumer.Copying? {
      var d := |s.delivered|;
      assert s.slots[d % n] == s.published[d];
      ModStep(d, n);
      var s' := Apply(s, PublishTail);
      if s' != s {
        assert s.consumer.got == s.published[d];
        assert s'.delivered == s.published[..d + 1];
      }
    }
  }

  lemma StepKeeps<T>(s: Ring<T>, n: nat, w: nat, step: Step<T>)
    requires Inv(s, n, w)
    ensures Inv(Apply(s, step), n, w)
  {
    match step
    case ReadHead(_) =>
    case CheckFull => PendingVerdicts(s, n, w);
    case WriteCell(cell, value) =>
      if s.producer.Filling? && cell < w { WriteKeepsUnread(s, n, w, cell, value); }
    case PublishHead => PublishKeeps(s, n, w);
    case ReadTail =>
    case CheckEmpty => PendingVerdicts(s, n, w);
    case CopyCell => ConsumeKeeps(s, n, w);
    case PublishTail => ConsumeKeeps(s, n, w);
  }

  lemma {:induction false} RunKeeps<T>(s: Ring<T>, n: nat, w: nat, steps: seq<Step<T>>)
    requires Inv(s, n, w)
    ensures Inv(Run(s, steps), n, w)
    decreases |steps|
  {
    if steps != [] {
      StepKeeps(s, n, w, steps[0]);
      RunKeeps(Apply(s, steps[0]), n, w, steps[1..]);
    }
  }

  // ------------------------------------------------------------------
  // Main results
  // ------------------------------------------------------------------

  /**
    Under every interleaving: what has been delivered is a prefix of what has been
    published, at most n - 1 items are unread, and each unread item is intact in its slot.
   */
  lemma {:induction false} RingSafety<T>(n: nat, blank: seq<T>, steps: seq<Step<T>>)
    requires n >= 2
    ensures var s := Run(Empty(n, blank), steps);
      && s.delivered <= s.published
      && s.Pending() <= n - 1
      && forall i :: |s.delivered| <= i < |s.published| ==> |s.slots| == n && s.slots[i % n] == s.published[i]
  {
    EmptyInv(n, blank);
    RunKeeps(Empty(n, blank), n, |blank|, steps);
  }

  /**
    A send is refused exactly when n - 1 items are unread at the moment tail is read, and
    the consumer turns away exactly when nothing is unread at the moment head is read.
   */
  lemma {:induction false} Verdicts<T>(n: nat, blank: seq<T>, steps: seq<Step<T>>)
    requires n >= 2
    ensures var s := Run(Empty(n, blank), steps);
      && (s.producer.SawHead? ==> (Apply(s, CheckFull).producer.Ready? <==> s.Pending() == n - 1))
      && (s.consumer.SawTail? ==> (Apply(s, CheckEmpty).consumer.Waiting? <==> s.Pending() == 0))
  {
    EmptyInv(n, blank);
    RunKeeps(Empty(n, blank), n, |blank|, steps);
    PendingVerdicts(Run(Empty(n, blank), steps), n, |blank|);
  }

  // ------------------------------------------------------------------
  // An undisturbed call completes
  // ------------------------------------------------------------------

  /** Write cells from on, in order, then publish. */
  function WritesFrom<T>(item: seq<T>, from: nat): seq<Step<T>>
    requires from <= |item|
    decreases |item| - from
  {
    if from == |item| then [PublishHead] else [WriteCell(from, item[from])] + WritesFrom(item, from + 1)
  }

  /** The accesses of one send. */
  function SendProgram<T>(item: seq<T>): seq<Step<T>> {
    [ReadHead(item), CheckFull] + WritesFrom(item, 0)
  }

  /** Copy the remaining cells, then publish tail. */
  function CopiesOf<T>(cells: nat): seq<Step<T>> {
    if cells == 0 then [PublishTail] else [CopyCell] + CopiesOf(cells - 1)
  }

  /** The accesses of one take of a slot of w cells. */
  function TakeProgram<T>(w: nat): seq<Step<T>> {
    [ReadTail, CheckEmpty] + CopiesOf(w)
  }

  lemma RunTwo<T>(s: Ring<T>, a: Step<T>, b: Step<T>, rest: seq<Step<T>>)
    ensures Run(s, [a, b] + rest) == Run(Apply(Apply(s, a), b), rest)
  {
    hide Apply;
    var steps := [a, b] + rest;
    assert steps[1..] == [b] + rest && steps[1..][1..] == rest;
    assert Run(s, steps) == Run(Apply(s, a), steps[1..]);
  }

  lemma RunOne<T>(s: Ring<T>, a: Step<T>, rest: seq<Step<T>>)
    ensures Run(s, [a] + rest) == Run(Apply(s, a), rest)
  {
    hide Apply;
    assert ([a] + rest)[1..] == rest;
  }

  lemma {:induction false} WritesComplete<T>(s: Ring<T>, n: nat, w: nat, item: seq<T>, from: nat)
    requires Inv(s, n, w) && |item| == w && from <= w && s.producer == Filling(item, s.head)
    requires s.slots[s.head][..from] == item[..from]
    ensures var s' := Run(s, WritesFrom(item, from));
      s'.producer.Ready? && s'.published == s.published + [item] && s'.delivered == s.delivered
      && s'.consumer == s.consumer
    decreases w - from
  {
    if from == w {
      RunOne(s, PublishHead, []);
      assert [PublishHead] + [] == WritesFrom(item, from);
      assert s.slots[s.head] == s.slots[s.head][..w] == item[..w] == item;
    } else {
      var step := WriteCell(from, item[from]);
      RunOne(s, step, WritesFrom(item, from + 1));
      WriteKeepsUnread(s, n, w, from, item[from]);
      var s' := Apply(s, step);
      assert s'.slots[s.head][..from + 1] == item[..from + 1];
      WritesComplete(s', n, w, item, from + 1);
    }
  }

  /** A send that nobody interrupts is refused with n - 1 items unread and otherwise publishes its item. */
  lemma {:induction false} SendCompletes<T>(s: Ring<T>, n: nat, w: nat, item: seq<T>)
    requires Inv(s, n, w) && |item| == w && s.producer.Ready?
    ensures var s' := Run(s, SendProgram(item));
      && s'.producer.Ready? && s'.delivered == s.delivered && s'.consumer == s.consumer
      && s'.published == if s.Pending() == n - 1 then s.published else s.published + [item]
  {
    PendingVerdicts(s, n, w);
    RunTwo(s, ReadHead(item), CheckFull, WritesFrom(item, 0));
    StepKeeps(s, n, w, ReadHead(item));
    var t := Apply(s, ReadHead(item));
    StepKeeps(t, n, w, CheckFull);
    var u := Apply(t, CheckFull);
    if s.Pending() == n - 1 {
      IdleWrites(u, item, 0);
    } else {
      WritesComplete(u, n, w, item, 0);
    }
  }

  /** After a refusal the remaining accesses are not made. */
  lemma {:induction false} IdleWrites<T>(s: Ring<T>, item: seq<T>, from: nat)
    requires s.producer.Ready? && from <= |item|
    ensures Run(s, WritesFrom(item, from)) == s
    decreases |item| - from
  {
    if from == |item| {
      RunOne(s, PublishHead, []);
      assert [PublishHead] + [] == WritesFrom(item, from);
    } else {
      RunOne(s, WriteCell(from, item[from]), WritesFrom(item, from + 1));
      IdleWrites(s, item, from + 1);
    }
  }

  lemma {:induction false} CopiesComplete<T>(s: Ring<T>, n: nat, w: nat, cells: nat)
    requires Inv(s, n, w) && s.consumer.Copying? && |s.consumer.got| + cells == w
    ensures var s' := Run(s, CopiesOf(cells));
      s'.consumer.Waiting? && s'.published == s.published
      && s'.delivered == s.delivered + [s.published[|s.delivered|]]
    decreases cells
  {
    var d := |s.delivered|;
    assert s.slots[d % n] == s.published[d];
    if cells == 0 {
      RunOne(s, PublishTail, []);
      assert [PublishTail] + [] == CopiesOf<T>(0);
      assert s.consumer.got == s.published[d];
    } else {
      RunOne(s, CopyCell, CopiesOf(cells - 1));
      ConsumeKeeps(s, n, w);
      CopiesComplete(Apply(s, CopyCell), n, w, cells - 1);
    }
  }

  /** A take that nobody interrupts delivers the oldest unread item. */
  lemma {:induction false} TakeCompletes<T>(s: Ring<T>, n: nat, w: nat)
    requires Inv(s, n, w) && s.consumer.Waiting? && s.Pending() > 0
    ensures var s' := Run(s, TakeProgram(w));
      && s'.consumer.Waiting? && s'.published == s.published
      && s'.delivered == s.delivered + [s.published[|s.delivered|]]
  {
    PendingVerdicts(s, n, w);
    RunTwo(s, ReadTail, CheckEmpty, CopiesOf(w));
    StepKeeps(s, n, w, ReadTail);
    var t := Apply(s, ReadTail);
    StepKeeps(t, n, w, CheckEmpty);
    CopiesComplete(Apply(t, CheckEmpty), n, w, w);
  }

  // ------------------------------------------------------------------
  // A send completes whatever the consumer does meanwhile
  // ------------------------------------------------------------------

  predicate ByConsumer<T>(step: Step<T>) {
    step.ReadTail? || step.CheckEmpty? || step.CopyCell? || step.PublishTail?
  }

  /** The producer's part of an interleaving. */
  function ProducerPart<T>(steps: seq<Step<T>>): seq<Step<T>> {
    if steps == [] then []
    else (if ByConsumer(steps[0]) then [] else [steps[0]]) + ProducerPart(steps[1..])
  }

  /** The position at which the producer compares its head with tail, or |steps|. */
  function CheckAt<T>(steps: seq<Step<T>>): nat {
    if steps == [] || steps[0].CheckFull? then 0 else 1 + CheckAt(steps[1..])
  }

  lemma ConsumerStep<T>(s: Ring<T>, n: nat, w: nat, step: Step<T>)
    requires Inv(s, n, w) && ByConsumer(step)
    ensures var s' := Apply(s, step);
      && Inv(s', n, w) && s'.producer == s.producer && s'.published == s.published
      && s'.slots == s.slots && s'.head == s.head
  {
    StepKeeps(s, n, w, step);
  }

  lemma FirstOfPart<T>(steps: seq<Step<T>>, a: Step<T>, rest: seq<Step<T>>)
    requires steps != [] && ProducerPart(steps) == [a] + rest
    ensures ByConsumer(steps[0]) ==> ProducerPart(steps[1..]) == [a] + rest
    ensures !ByConsumer(steps[0]) ==> steps[0] == a && ProducerPart(steps[1..]) == rest
  {
    var tail := ProducerPart(steps[1..]);
    if ByConsumer(steps[0]) {
      assert ProducerPart(steps) == [] + tail == tail;
    } else {
      assert ProducerPart(steps) == [steps[0]] + tail;
      assert ([steps[0]] + tail)[0] == ([a] + rest)[0];
      assert tail == ([steps[0]] + tail)[1..] == ([a] + rest)[1..] == rest;
    }
  }

  lemma {:induction false} OnlyConsumer<T>(s: Ring<T>, n: nat, w: nat, steps: seq<Step<T>>)
    requires Inv(s, n, w) && s.producer.Ready? && ProducerPart(steps) == []
    ensures var s' := Run(s, steps); s'.producer.Ready? && s'.published == s.published
    decreases |steps|
  {
    hide Apply, Inv;
    if steps != [] {
      ConsumerStep(s, n, w, steps[0]);
      OnlyConsumer(Apply(s, steps[0]), n, w, steps[1..]);
    }
  }

  /** Behind the check: what is left of the program fills the slot and publishes it. */
  lemma {:induction false} RestPublishes<T>(
      s: Ring<T>, n: nat, w: nat, item: seq<T>, from: nat, steps: seq<Step<T>>)
    requires Inv(s, n, w) && |item| == w && from <= w && s.producer == Filling(item, s.head)
    requires s.slots[s.head][..from] == item[..from] && ProducerPart(steps) == WritesFrom(item, from)
    ensures var s' := Run(s, steps); s'.producer.Ready? && s'.published == s.published + [item]
    decreases |steps|
  {
    assert steps != [];
    var a := if from == w then PublishHead else WriteCell(from, item[from]);
    var rest := if from == w then [] else WritesFrom(item, from + 1);
    assert WritesFrom(item, from) == [a] + rest;
    FirstOfPart(steps, a, rest);
    var s1 := Apply(s, steps[0]);
    if ByConsumer(steps[0]) {
      ConsumerStep(s, n, w, steps[0]);
      RestPublishes(s1, n, w, item, from, steps[1..]);
    } else if from == w {
      assert s.slots[s.head] == s.slots[s.head][..w] == item[..w] == item;
      PublishKeeps(s, n, w);
      OnlyConsumer(s1, n, w, steps[1..]);
    } else {
      WriteKeepsUnread(s, n, w, from, item[from]);
      assert s1.slots[s1.head][..from + 1] == item[..from + 1];
      RestPublishes(s1, n, w, item, from + 1, steps[1..]);
    }
  }

  /** Behind a refusal: what is left of the program does nothing. */
  lemma {:induction false} RestIdles<T>(
      s: Ring<T>, n: nat, w: nat, item: seq<T>, from: nat, steps: seq<Step<T>>)
    requires Inv(s, n, w) && from <= |item| && s.producer.Ready? && ProducerPart(steps) == WritesFrom(item, from)
    ensures var s' := Run(s, steps); s'.producer.Ready? && s'.published == s.published
    decreases |steps|
  {
    assert steps != [];
    var a := if from == |item| then PublishHead else WriteCell(from, item[from]);
    var rest := if from == |item| then [] else WritesFrom(item, from + 1);
    assert WritesFrom(item, from) == [a] + rest;
    FirstOfPart(steps, a, rest);
    if ByConsumer(steps[0]) {
      ConsumerStep(s, n, w, steps[0]);
      RestIdles(Apply(s, steps[0]), n, w, item, from, steps[1..]);
    } else if from == |item| {
      OnlyConsumer(s, n, w, steps[1..]);
    } else {
      RestIdles(s, n, w, item, from + 1, steps[1..]);
    }
  }

  lemma {:induction false} CheckDecides<T>(s: Ring<T>, n: nat, w: nat, item: seq<T>, steps: seq<Step<T>>)
    requires Inv(s, n, w) && |item| == w && s.producer == SawHead(item, s.head)
    requires ProducerPart(steps) == [CheckFull] + WritesFrom(item, 0)
    ensures CheckAt(steps) < |steps| && steps[CheckAt(steps)].CheckFull?
    ensures var s' := Run(s, steps);
      && s'.producer.Ready?
      && s'.published == if Run(s, steps[..CheckAt(steps)]).Pending() == n - 1 then s.published
                         else s.published + [item]
    decreases |steps|
  {
    assert steps != [];
    FirstOfPart(steps, CheckFull, WritesFrom(item, 0));
    var s1 := Apply(s, steps[0]);
    if ByConsumer(steps[0]) {
      ConsumerStep(s, n, w, steps[0]);
      CheckDecides(s1, n, w, item, steps[1..]);
      RunPrefix(s, steps, CheckAt(steps));
    } else {
      assert steps[..0] == [];
      PendingVerdicts(s, n, w);
      StepKeeps(s, n, w, CheckFull);
      if s.Pending() == n - 1 {
        RestIdles(s1, n, w, item, 0, steps[1..]);
      } else {
        RestPublishes(s1, n, w, item, 0, steps[1..]);
      }
    }
  }

  lemma RunPrefix<T>(s: Ring<T>, steps: seq<Step<T>>, k: nat)
    requires 1 <= k <= |steps|
    ensures Run(s, steps[..k]) == Run(Apply(s, steps[0]), steps[1..][..k - 1])
  {
    hide Apply;
    assert steps[..k][1..] == steps[1..][..k - 1];
  }

  /**
    Whatever the consumer does meanwhile: a run in which the producer makes exactly the
    accesses of one send ends with the producer ready; the send is refused if and only if
    n - 1 items are unread as it compares its head with tail, and otherwise published.
   */
  lemma {:induction false} SendDecided<T>(s: Ring<T>, n: nat, w: nat, item: seq<T>, steps: seq<Step<T>>)
    requires Inv(s, n, w) && |item| == w && s.producer.Ready? && ProducerPart(steps) == SendProgram(item)
    ensures CheckAt(steps) < |steps| && steps[CheckAt(steps)].CheckFull?
    ensures var s' := Run(s, steps);
      && s'.producer.Ready?
      && s'.published == if Run(s, steps[..CheckAt(steps)]).Pending() == n - 1 then s.published
                         else s.published + [item]
    decreases |steps|
  {
    assert steps != [];
    var rest := [CheckFull] + WritesFrom(item, 0);
    assert SendProgram(item) == [ReadHead(item)] + rest;
    FirstOfPart(steps, ReadHead(item), rest);
    var s1 := Apply(s, steps[0]);
    if ByConsumer(steps[0]) {
      ConsumerStep(s, n, w, steps[0]);
      SendDecided(s1, n, w, item, steps[1..]);
    } else {
      StepKeeps(s, n, w, steps[0]);
      CheckDecides(s1, n, w, item, steps[1..]);
    }
    RunPrefix(s, steps, CheckAt(steps));
  }
}
