/**
 The table of immutable ranges: one writer appends while readers scan without a
 lock. Every atomic load and store is a step of its own.
 */
module RangeTable {
  import opened Lists
  import opened Words

  const FIRST_SIZE: nat := 2
  const NEXT_SIZE: nat := 15

  /** A slot whose start is zero is not in use. */
  datatype Slot = Slot(start: nat, end: nat)

  const EMPTY := Slot(0, 0)

  type Bucket = seq<Slot>

  /** The writer: about to store an end, then a start, or to link a bucket that has the range already. */
  datatype Writer = Idle | StoreEnd(b: nat, i: nat, range: Slot) | StoreStart(b: nat, i: nat, range: Slot) | Link(range: Slot)

  datatype Pc = AtStart(b: nat, i: nat) | AtCompare(b: nat, i: nat) | AtEnd(b: nat, i: nat) | AtNext(b: nat) | Hit | Miss

  /** `known` is how many ranges had been registered when the scan began. */
  datatype Reader = Reader(address: nat, length: nat, known: nat, pc: Pc)

  /** `registered` records the history of completed registrations. */
  datatype State = State(buckets: seq<Bucket>, writer: Writer, readers: seq<Reader>, registered: seq<Slot>)

  function Fresh(size: nat): Bucket { seq(size, _ => EMPTY) }

  ghost function Start(): State { State([Fresh(FIRST_SIZE)], Idle, [], []) }

  // ----- the writer -----

  function FirstEmptyIn(bucket: Bucket, i: nat): (r: nat)
    requires i <= |bucket|
    ensures i <= r <= |bucket|
    ensures r < |bucket| ==> bucket[r].start == 0
    ensures forall k :: i <= k < r ==> bucket[k].start != 0
    decreases |bucket| - i
  {
    if i == |bucket| || bucket[i].start == 0 then i else FirstEmptyIn(bucket, i + 1)
  }

  function FirstEmpty(buckets: seq<Bucket>, b: nat): (r: Option<(nat, nat)>)
    requires b <= |buckets|
    ensures r.Some? ==> b <= r.value.0 < |buckets| && r.value.1 < |buckets[r.value.0]|
                        && buckets[r.value.0][r.value.1].start == 0
                        && (forall i :: 0 <= i < r.value.1 ==> buckets[r.value.0][i].start != 0)
    ensures forall c, i :: b <= c < (if r.Some? then r.value.0 else |buckets|) && 0 <= i < |buckets[c]| ==> buckets[c][i].start != 0
    decreases |buckets| - b
  {
    if b == |buckets| then None
    else
      var i := FirstEmptyIn(buckets[b], 0);
      if i < |buckets[b]| then Some((b, i)) else FirstEmpty(buckets, b + 1)
  }

  // ----- the steps -----

  datatype Action = Add(range: Slot) | Write | Scan(address: nat, length: nat) | Read(r: nat)

  ghost predicate HasSlot(s: State, b: nat, i: nat) { b < |s.buckets| && i < |s.buckets[b]| }

  ghost predicate Enabled(s: State, a: Action) {
    match a
    case Add(range) => s.writer.Idle? && 0 < range.start < TWO64 && range.end < TWO64
    case Write =>
      match s.writer {
        case Idle => false
        case StoreEnd(b, i, _) => HasSlot(s, b, i)
        case StoreStart(b, i, _) => HasSlot(s, b, i)
        case Link(_) => true
      }
    case Scan(address, length) => address < TWO64 && length < TWO64
    case Read(r) => r < |s.readers| && CanRead(s, s.readers[r].pc)
  }

  ghost predicate CanRead(s: State, pc: Pc) {
    match pc
    case AtStart(b, i) => b < |s.buckets| && i <= |s.buckets[b]|
    case AtCompare(b, i) => HasSlot(s, b, i)
    case AtEnd(b, i) => HasSlot(s, b, i)
    case AtNext(b) => b < |s.buckets|
    case Hit => false
    case Miss => false
  }

  ghost function NextPc(s: State, r: Reader): Pc
    requires CanRead(s, r.pc)
  {
    match r.pc
    case AtStart(b, i) => if i == |s.buckets[b]| || s.buckets[b][i].start == 0 then AtNext(b) else AtCompare(b, i)
    case AtCompare(b, i) => if s.buckets[b][i].start <= r.address then AtEnd(b, i) else AtStart(b, i + 1)
    case AtEnd(b, i) => if s.buckets[b][i].end > Wrap(r.address + r.length) then Hit else AtStart(b, i + 1)
    case AtNext(b) => if b + 1 < |s.buckets| then AtStart(b + 1, 0) else Miss
  }

  ghost function Step(s: State, a: Action): State
    requires Enabled(s, a)
  {
    match a
    case Add(range) =>
      (match FirstEmpty(s.buckets, 0)
       case Some(p) => s.(writer := StoreEnd(p.0, p.1, range))
       case None => s.(writer := Link(range)))
    case Write =>
      (match s.writer
       case StoreEnd(b, i, range) =>
         s.(buckets := s.buckets[b := s.buckets[b][i := s.buckets[b][i].(end := range.end)]], writer := StoreStart(b, i, range))
       case StoreStart(b, i, range) =>
         s.(buckets := s.buckets[b := s.buckets[b][i := s.buckets[b][i].(start := range.start)]], writer := Idle,
            registered := s.registered + [range])
       case Link(range) =>
         s.(buckets := s.buckets + [Fresh(NEXT_SIZE)[0 := range]], writer := Idle, registered := s.registered + [range]))
    case Scan(address, length) =>
      s.(readers := s.readers + [Reader(address, length, |s.registered|, AtStart(0, 0))])
    case Read(r) =>
      s.(readers := s.readers[r := s.readers[r].(pc := NextPc(s, s.readers[r]))])
  }

  // ----- the table -----

  /** The position of a slot among all slots. */
  function Position(b: nat, i: nat): nat { if b == 0 then i else FIRST_SIZE + NEXT_SIZE * (b - 1) + i }

  function SizeOf(b: nat): nat { if b == 0 then 2 else 15 }

  ghost predicate Shaped(s: State) {
    |s.buckets| >= 1 && forall b :: 0 <= b < |s.buckets| ==> |s.buckets[b]| == SizeOf(b)
  }

  /** Slots are used in order: the k-th registered range is in the k-th slot, and the slots behind are free. */
  ghost predicate UsedIsPrefix(s: State)
    requires Shaped(s)
  {
    forall b: nat, i: nat {:trigger s.buckets[b][i]} :: HasSlot(s, b, i) ==>
      if Position(b, i) < |s.registered| then s.buckets[b][i] == s.registered[Position(b, i)] else s.buckets[b][i].start == 0
  }

  function Capacity(s: State): nat
    requires |s.buckets| >= 1
  {
    Position(|s.buckets| - 1, SizeOf(|s.buckets| - 1))
  }

  ghost predicate WriterOk(s: State)
    requires Shaped(s)
  {
    match s.writer
    case Idle => true
    case StoreEnd(b, i, range) => range.start > 0 && HasSlot(s, b, i) && Position(b, i) == |s.registered|
    case StoreStart(b, i, range) =>
      range.start > 0 && HasSlot(s, b, i) && Position(b, i) == |s.registered| && s.buckets[b][i].end == range.end
    case Link(range) => range.start > 0 && |s.registered| == Capacity(s)
  }

  ghost predicate TableOk(s: State) {
    && Shaped(s) && UsedIsPrefix(s) && WriterOk(s)
    && |s.registered| <= Capacity(s)
    && forall k :: 0 <= k < |s.registered| ==> s.registered[k].start > 0
  }

  lemma {:induction false} PositionsDiffer(b: nat, i: nat, c: nat, j: nat)
    requires i < SizeOf(b) && j < SizeOf(c) && Position(b, i) == Position(c, j)
    ensures b == c && i == j
  {
  }

  /** The first empty slot is the one behind the registered ranges. */
  lemma {:induction false} AddKeepsTable(s: State, range: Slot)
    requires TableOk(s) && Enabled(s, Add(range))
    ensures TableOk(Step(s, Add(range)))
  {
    match FirstEmpty(s.buckets, 0)
    case Some(p) =>
      var b, i := p.0, p.1;
      assert s.buckets[b][i].start == 0;
      if Position(b, i) > |s.registered| {
        BeforeIsEmpty(s, b, i);
      }
    case None =>
      var b := |s.buckets| - 1;
      assert s.buckets[b][SizeOf(b) - 1].start != 0;
  }

  /** If the slot at a position is not the next one, an earlier slot is empty. */
  lemma {:induction false} BeforeIsEmpty(s: State, b: nat, i: nat)
    requires TableOk(s) && HasSlot(s, b, i) && Position(b, i) > |s.registered|
    ensures i > 0 ==> s.buckets[b][i - 1].start == 0
    ensures i == 0 ==> b > 0 && s.buckets[b - 1][SizeOf(b - 1) - 1].start == 0
  {
    if i > 0 {
      assert HasSlot(s, b, i - 1) && s.buckets[b][i - 1] == s.buckets[b][i - 1];
    } else {
      assert HasSlot(s, b - 1, SizeOf(b - 1) - 1) && s.buckets[b - 1][SizeOf(b - 1) - 1] == s.buckets[b - 1][SizeOf(b - 1) - 1];
    }
  }

  lemma {:induction false} StoreKeepsTable(s: State)
    requires TableOk(s) && Enabled(s, Write) && !s.writer.Link?
    ensures TableOk(Step(s, Write))
  {
    var r, b0, i0 := Step(s, Write), s.writer.b, s.writer.i;
    forall b: nat, i: nat | HasSlot(r, b, i)
      ensures if Position(b, i) < |r.registered| then r.buckets[b][i] == r.registered[Position(b, i)] else r.buckets[b][i].start == 0
    {
      assert HasSlot(s, b, i) && s.buckets[b][i] == s.buckets[b][i];
      if Position(b, i) == |s.registered| {
        PositionsDiffer(b, i, b0, i0);
      } else {
        assert r.buckets[b][i] == s.buckets[b][i];
      }
    }
    PositionBound(s, b0, i0);
  }

  lemma {:induction false} PositionBound(s: State, b: nat, i: nat)
    requires Shaped(s) && HasSlot(s, b, i)
    ensures Position(b, i) < Capacity(s)
  {
  }

  lemma {:induction false} LinkKeepsTable(s: State)
    requires TableOk(s) && s.writer.Link?
    ensures TableOk(Step(s, Write))
  {
    var r, last := Step(s, Write), |s.buckets|;
    forall b: nat, i: nat | HasSlot(r, b, i)
      ensures if Position(b, i) < |r.registered| then r.buckets[b][i] == r.registered[Position(b, i)] else r.buckets[b][i].start == 0
    {
      if b < last {
        PositionBound(s, b, i);
        assert r.buckets[b][i] == s.buckets[b][i] && HasSlot(s, b, i);
      }
    }
  }

  // ----- the readers -----

  predicate Covers(range: Slot, r: Reader) { range.start <= r.address && Wrap(r.address + r.length) < range.end }

  /** None of the known ranges before the position covers the query. */
  ghost predicate MissedBefore(s: State, r: Reader, position: nat) {
    forall k :: 0 <= k < r.known && k < position && k < |s.registered| ==> !Covers(s.registered[k], r)
  }

  ghost predicate InUse(s: State, b: nat, i: nat) { HasSlot(s, b, i) && Position(b, i) < |s.registered| }

  ghost predicate ReaderOk(s: State, r: Reader) {
    && r.known <= |s.registered|
    && match r.pc
       case AtStart(b, i) => b < |s.buckets| && i <= SizeOf(b) && MissedBefore(s, r, Position(b, i))
       case AtCompare(b, i) => InUse(s, b, i) && MissedBefore(s, r, Position(b, i))
       case AtEnd(b, i) =>
         InUse(s, b, i) && MissedBefore(s, r, Position(b, i)) && s.registered[Position(b, i)].start <= r.address
       case AtNext(b) => b < |s.buckets| && MissedBefore(s, r, Position(b, SizeOf(b)))
       case Hit => exists k :: 0 <= k < |s.registered| && Covers(s.registered[k], r)
       case Miss => MissedBefore(s, r, r.known)
  }

  ghost predicate Inv(s: State) {
    TableOk(s) && forall r :: 0 <= r < |s.readers| ==> ReaderOk(s, s.readers[r])
  }

  /** Appending does not disturb a reader. */
  lemma {:induction false} ReaderStays(s: State, t: State, r: Reader)
    requires Shaped(s) && Shaped(t) && |s.buckets| <= |t.buckets|
    requires s.registered <= t.registered && ReaderOk(s, r)
    ensures ReaderOk(t, r)
  {
    assert forall k :: 0 <= k < |s.registered| ==> t.registered[k] == s.registered[k];
  }

  lemma {:induction false} ReadKeepsReader(s: State, r: Reader)
    requires TableOk(s) && ReaderOk(s, r) && CanRead(s, r.pc)
    ensures ReaderOk(s, r.(pc := NextPc(s, r)))
  {
    var next := r.(pc := NextPc(s, r));
    match r.pc
    case AtStart(b, i) =>
      if i < |s.buckets[b]| {
        assert HasSlot(s, b, i) && s.buckets[b][i] == s.buckets[b][i];
      }
    case AtCompare(b, i) =>
      assert s.buckets[b][i] == s.registered[Position(b, i)];
    case AtEnd(b, i) =>
      assert s.buckets[b][i] == s.registered[Position(b, i)];
    case AtNext(b) =>
  }

  lemma {:induction false} WriteKeepsInv(s: State)
    requires Inv(s) && Enabled(s, Write)
    ensures Inv(Step(s, Write))
  {
    var t := Step(s, Write);
    if s.writer.Link? {
      LinkKeepsTable(s);
    } else {
      StoreKeepsTable(s);
    }
    forall r | 0 <= r < |t.readers| ensures ReaderOk(t, t.readers[r]) {
      ReaderStays(s, t, s.readers[r]);
    }
  }

  /** The table stays the same, and so does every reader but perhaps one. */
  lemma {:induction false} ReadersKeepInv(s: State, t: State, r: nat)
    requires Inv(s) && t == s.(readers := t.readers) && r < |t.readers| && ReaderOk(s, t.readers[r])
    requires forall q :: 0 <= q < |t.readers| && q != r ==> q < |s.readers| && t.readers[q] == s.readers[q]
    ensures Inv(t)
  {
    forall q | 0 <= q < |t.readers| ensures ReaderOk(t, t.readers[q]) {
      ReaderStays(s, t, t.readers[q]);
    }
  }

  lemma {:induction false} StepKeepsInv(s: State, a: Action)
    requires Inv(s) && Enabled(s, a)
    ensures Inv(Step(s, a))
  {
    var t := Step(s, a);
    match a
    case Add(range) =>
      AddKeepsTable(s, range);
      forall r | 0 <= r < |t.readers| ensures ReaderOk(t, t.readers[r]) {
        ReaderStays(s, t, s.readers[r]);
      }
    case Write => WriteKeepsInv(s);
    case Scan(address, length) => ReadersKeepInv(s, t, |s.readers|);
    case Read(r) =>
      ReadKeepsReader(s, s.readers[r]);
      ReadersKeepInv(s, t, r);
  }

  // ----- runs -----

  ghost predicate IsRun(states: seq<State>, actions: seq<Action>) {
    && |states| == |actions| + 1 && states[0] == Start()
    && forall k {:trigger actions[k]} :: 0 <= k < |actions| ==>
         Enabled(states[k], actions[k]) && states[k + 1] == Step(states[k], actions[k])
  }

  lemma {:induction false} RunKeepsInv(states: seq<State>, actions: seq<Action>, k: nat)
    requires IsRun(states, actions) && k <= |actions|
    ensures Inv(states[k])
  {
    if k > 0 {
      RunKeepsInv(states, actions, k - 1);
      StepKeepsInv(states[k - 1], actions[k - 1]);
    }
  }

  /** Used slots are always a prefix: a used slot has no empty one before it, in any bucket. */
  lemma {:induction false} NoGaps(states: seq<State>, actions: seq<Action>, k: nat, b: nat, i: nat, c: nat, j: nat)
    requires IsRun(states, actions) && k <= |actions|
    requires HasSlot(states[k], b, i) && HasSlot(states[k], c, j) && Position(b, i) <= Position(c, j)
    requires states[k].buckets[c][j].start != 0
    ensures states[k].buckets[b][i].start != 0
  {
    RunKeepsInv(states, actions, k);
    var s := states[k];
    assert s.buckets[c][j] == s.registered[Position(c, j)];
    assert s.buckets[b][i] == s.registered[Position(b, i)];
  }

  /** A hit is about a registered range, and the memory asked about lies inside it unless its end wraps. */
  lemma {:induction false} HitIsRegistered(states: seq<State>, actions: seq<Action>, k: nat, r: nat)
    requires IsRun(states, actions) && k <= |actions| && r < |states[k].readers| && states[k].readers[r].pc.Hit?
    ensures var q := states[k].readers[r];
      && (exists n :: 0 <= n < |states[k].registered| && Covers(states[k].registered[n], q))
      && ((exists n :: 0 <= n < |states[k].registered| && Inside(states[k].registered[n], q)) <==> q.address + q.length < TWO64)
  {
    RunKeepsInv(states, actions, k);
    RangesAreWords(states, actions, k);
    var s, q := states[k], states[k].readers[r];
    var n :| 0 <= n < |s.registered| && Covers(s.registered[n], q);
    if q.address + q.length < TWO64 {
      assert Inside(s.registered[n], q);
    }
  }

  predicate Inside(range: Slot, r: Reader) { range.start <= r.address && r.address + r.length < range.end }

  ghost predicate WritesWords(s: State) {
    && (forall n :: 0 <= n < |s.registered| ==> s.registered[n].end < TWO64)
    && (!s.writer.Idle? ==> s.writer.range.end < TWO64)
  }

  lemma {:induction false} RangesAreWords(states: seq<State>, actions: seq<Action>, k: nat)
    requires IsRun(states, actions) && k <= |actions|
    ensures WritesWords(states[k])
  {
    if k > 0 {
      RangesAreWords(states, actions, k - 1);
      var a := actions[k - 1];
    }
  }

  ghost predicate Reachable(s: State) {
    exists states: seq<State>, actions: seq<Action> :: IsRun(states, actions) && states[|actions|] == s
  }

  lemma {:induction false} RunGrows(states: seq<State>, actions: seq<Action>, a: Action, k: nat)
    requires IsRun(states, actions) && k <= |actions| && Enabled(states[|actions|], a)
    ensures var longer, all := states + [Step(states[|actions|], a)], actions + [a];
      Enabled(longer[k], all[k]) && longer[k + 1] == Step(longer[k], all[k])
  {
    var longer, all := states + [Step(states[|actions|], a)], actions + [a];
    if k < |actions| {
      assert all[k] == actions[k] && longer[k] == states[k] && longer[k + 1] == states[k + 1];
    }
  }

  lemma {:induction false} ReachableNext(s: State, a: Action)
    requires Reachable(s) && Enabled(s, a)
    ensures Reachable(Step(s, a))
  {
    var states: seq<State>, actions: seq<Action> :| IsRun(states, actions) && states[|actions|] == s;
    var longer, all := states + [Step(s, a)], actions + [a];
    forall k | 0 <= k < |all| ensures Enabled(longer[k], all[k]) && longer[k + 1] == Step(longer[k], all[k]) {
      RunGrows(states, actions, a, k);
    }
    assert IsRun(longer, all) && longer[|all|] == Step(s, a);
  }

  function OneRange(range: Slot): State { State([[range, EMPTY]], Idle, [], [range]) }

  lemma {:induction false} OneRangeIsReachable(range: Slot)
    requires 0 < range.start < TWO64 && range.end < TWO64
    ensures Reachable(OneRange(range))
  {
    var s0 := Start();
    assert IsRun([s0], []) && [s0][0] == s0;
    assert Fresh(FIRST_SIZE) == [EMPTY, EMPTY] && EMPTY.(end := range.end) == Slot(0, range.end);
    ReachableNext(s0, Add(range));
    var s1 := State([[EMPTY, EMPTY]], StoreEnd(0, 0, range), [], []);
    ReachableNext(s1, Write);
    var s2 := State([[Slot(0, range.end), EMPTY]], StoreStart(0, 0, range), [], []);
    assert [EMPTY, EMPTY][0 := Slot(0, range.end)] == [Slot(0, range.end), EMPTY];
    assert s1.buckets[0 := [Slot(0, range.end), EMPTY]] == s2.buckets;
    ReachableNext(s2, Write);
    assert [Slot(0, range.end), EMPTY][0 := range] == [range, EMPTY];
    assert s2.buckets[0 := [range, EMPTY]] == OneRange(range).buckets && [] + [range] == [range];
  }

  /** The one reader takes a step. */
  lemma {:induction false} OneReaderReads(s: State, q: Reader)
    requires Reachable(s.(readers := [q])) && CanRead(s, q.pc)
    ensures Reachable(s.(readers := [q.(pc := NextPc(s, q))]))
  {
    var now := s.(readers := [q]);
    ReachableNext(now, Read(0));
    assert [q][0 := q.(pc := NextPc(s, q))] == [q.(pc := NextPc(s, q))];
    assert Step(now, Read(0)) == s.(readers := [q.(pc := NextPc(s, q))]);
  }

  lemma {:induction false} OneScanBegins(range: Slot, q: Reader)
    requires 0 < range.start < TWO64 && range.end < TWO64 && q == Reader(q.address, q.length, 1, AtStart(0, 0))
    requires q.address < TWO64 && q.length < TWO64
    ensures Reachable(OneRange(range).(readers := [q]))
  {
    var s := OneRange(range);
    OneRangeIsReachable(range);
    ReachableNext(s, Scan(q.address, q.length));
    assert Step(s, Scan(q.address, q.length)) == s.(readers := [q]);
  }

  /** A query whose end wraps around may hit although the memory that it asks about is not inside the range. */
  lemma {:induction false} WrappedQueryHits(range: Slot, address: nat, length: nat)
    requires 0 < range.start <= address < TWO64 && range.end < TWO64 && length < TWO64
    requires Wrap(address + length) < range.end
    ensures Reachable(OneRange(range).(readers := [Reader(address, length, 1, Hit)]))
    ensures address + length >= TWO64 ==> !Inside(range, Reader(address, length, 1, Hit))
  {
    var s, q := OneRange(range), Reader(address, length, 1, AtStart(0, 0));
    OneScanBegins(range, q);
    OneReaderReads(s, q);
    OneReaderReads(s, q.(pc := AtCompare(0, 0)));
    OneReaderReads(s, q.(pc := AtEnd(0, 0)));
  }

  /** The range [16, 32) is reported to hold the 2^64 - 8 bytes from 24 on. */
  lemma {:induction false} WrongHit()
    ensures var q := Reader(24, TWO64 - 8, 1, Hit);
      Reachable(OneRange(Slot(16, 32)).(readers := [q])) && !Inside(Slot(16, 32), q)
  {
    WrappedQueryHits(Slot(16, 32), 24, TWO64 - 8);
  }

  /** A scan that began after a registration and found nothing was not asked about memory strictly inside it. */
  lemma {:induction false} MissIsRight(states: seq<State>, actions: seq<Action>, k: nat, r: nat, n: nat)
    requires IsRun(states, actions) && k <= |actions| && r < |states[k].readers| && states[k].readers[r].pc.Miss?
    requires n < states[k].readers[r].known
    ensures n < |states[k].registered| && !Covers(states[k].registered[n], states[k].readers[r])
    ensures !Inside(states[k].registered[n], states[k].readers[r])
  {
    RunKeepsInv(states, actions, k);
    RangesAreWords(states, actions, k);
  }

  /** Readers never read outside the table. */
  lemma {:induction false} ReadersNeverStray(states: seq<State>, actions: seq<Action>, k: nat, r: nat)
    requires IsRun(states, actions) && k <= |actions| && r < |states[k].readers|
    ensures CanRead(states[k], states[k].readers[r].pc) || states[k].readers[r].pc in {Hit, Miss}
  {
    RunKeepsInv(states, actions, k);
  }

  /** If nothing was registered since it began, a finished scan hits exactly if some range covers the query, its end excluded. */
  lemma {:induction false} FinishedScanIsExact(states: seq<State>, actions: seq<Action>, k: nat, r: nat)
    requires IsRun(states, actions) && k <= |actions| && r < |states[k].readers|
    requires states[k].readers[r].pc in {Hit, Miss} && states[k].readers[r].known == |states[k].registered|
    ensures var q := states[k].readers[r];
      q.pc.Hit? <==> exists n :: 0 <= n < |states[k].registered| && Covers(states[k].registered[n], q)
  {
    if states[k].readers[r].pc.Hit? {
      HitIsRegistered(states, actions, k, r);
    } else {
      forall n | 0 <= n < |states[k].registered| ensures !Covers(states[k].registered[n], states[k].readers[r]) {
        MissIsRight(states, actions, k, r, n);
      }
    }
  }

  /** All the memory asked about belongs to the range, whose end is the first address behind it. */
  predicate Contains(range: Slot, r: Reader) { range.start <= r.address && r.address + r.length <= range.end }

  /** A query that ends where its range ends is missed, although all of it is in the range. */
  lemma {:induction false} LastBytesMissed(range: Slot, address: nat)
    requires 0 < range.start <= address < range.end < TWO64
    ensures var q := Reader(address, range.end - address, 1, Miss);
      Contains(range, q) && Reachable(OneRange(range).(readers := [q]))
  {
    var s, q := OneRange(range), Reader(address, range.end - address, 1, AtStart(0, 0));
    OneScanBegins(range, q);
    OneReaderReads(s, q);
    OneReaderReads(s, q.(pc := AtCompare(0, 0)));
    OneReaderReads(s, q.(pc := AtEnd(0, 0)));
    OneReaderReads(s, q.(pc := AtStart(0, 1)));
    OneReaderReads(s, q.(pc := AtNext(0)));
  }
}
