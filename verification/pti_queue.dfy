/** The work queue between the polling timer and the injector thread
    (pti/pti_main.c): a ring of 400 entries, two indices and a counting semaphore.
    The timer may run between any two steps of the injector. */
module PtiQueue {
  const QUEUE_SIZE := 400

  // ----- the queue -----------------------------------------------------------------------

  datatype Queue<T> = Queue(ring: seq<T>, readIndex: nat, writeIndex: nat, tokens: nat)

  predicate WellFormed<T>(q: Queue<T>) {
    |q.ring| == QUEUE_SIZE && q.readIndex < QUEUE_SIZE && q.writeIndex < QUEUE_SIZE
  }

  function Next(index: nat): nat { (index + 1) % QUEUE_SIZE }

  /** The entry is written, writeIndex moves on and the semaphore is raised. */
  function Push<T>(q: Queue<T>, x: T): (q': Queue<T>)
    requires WellFormed(q)
    ensures WellFormed(q')
  {
    q.(ring := q.ring[q.writeIndex := x], writeIndex := Next(q.writeIndex), tokens := q.tokens + 1)
  }

  function PushAll<T>(q: Queue<T>, xs: seq<T>): (q': Queue<T>)
    requires WellFormed(q)
    ensures WellFormed(q')
    decreases |xs|
  {
    if xs == [] then q else PushAll(Push(q, xs[0]), xs[1..])
  }

  lemma PushAllTwo<T>(q: Queue<T>, x: T, y: T)
    requires WellFormed(q)
    ensures PushAll(q, [x, y]) == Push(Push(q, x), y)
    ensures PushAll(q, [x]) == Push(q, x)
  {
    assert [x, y][1..] == [y];
    assert PushAll(q, [x, y]) == PushAll(Push(q, x), [y]);
  }

  // ----- timer and injector as one step machine ------------------------------------------

  /** Where the injector stands in its loop. */
  datatype Injector<T> =
    | Asleep             // about to take a token
    | Woken              // token taken, indices not compared yet
    | Reading            // queue found not empty, entry not copied yet
    | Working(item: T)   // entry copied, readIndex not advanced yet

  /** `pushed` and `taken` list every entry ever written and ever copied; `done` counts the
      advances of readIndex, `skipped` the tokens spent on a queue that looked empty. */
  datatype State<T> = State(q: Queue<T>, injector: Injector<T>,
                            pushed: seq<T>, taken: seq<T>, done: nat, skipped: nat)

  datatype Event<T> =
    | Timer(x: T)   // the timer pushes one entry
    | Down          // the injector passes the semaphore
    | Compare       // it compares the indices
    | Copy          // it copies the entry
    | Advance       // it advances readIndex

  predicate Enabled<T>(s: State<T>, e: Event<T>) {
    match e
    case Timer(_) => true
    case Down => s.injector.Asleep? && s.q.tokens > 0
    case Compare => s.injector.Woken?
    case Copy => s.injector.Reading?
    case Advance => s.injector.Working?
  }

  function Step<T>(s: State<T>, e: Event<T>): State<T>
    requires WellFormed(s.q) && Enabled(s, e)
  {
    match e
    case Timer(x) => s.(q := Push(s.q, x), pushed := s.pushed + [x])
    case Down => s.(q := s.q.(tokens := s.q.tokens - 1), injector := Woken)
    case Compare =>
      if s.q.writeIndex == s.q.readIndex then s.(injector := Asleep, skipped := s.skipped + 1)
      else s.(injector := Reading)
    case Copy =>
      var item := s.q.ring[s.q.readIndex];
      s.(injector := Working(item), taken := s.taken + [item])
    case Advance => s.(q := s.q.(readIndex := Next(s.q.readIndex)), injector := Asleep, done := s.done + 1)
  }

  predicate Initial<T>(s: State<T>) {
    && WellFormed(s.q) && s.q.readIndex == 0 && s.q.writeIndex == 0 && s.q.tokens == 0
    && s.injector == Asleep && s.pushed == [] && s.taken == [] && s.done == 0 && s.skipped == 0
  }

  function Busy<T>(s: State<T>): nat { if s.injector.Asleep? then 0 else 1 }

  /** Entries written and not yet done with: the true number, which the indices only know modulo 400. */
  function Outstanding<T>(s: State<T>): int { |s.pushed| - s.done }

  // ----- what every interleaving keeps ---------------------------------------------------

  /** `laps` counts how often the number of outstanding entries is known to have passed a multiple
      of 400: tokens are wasted only on a queue that holds a multiple of 400 entries. */
  predicate InvAt<T>(s: State<T>, laps: nat) {
    && WellFormed(s.q)
    && s.q.writeIndex == |s.pushed| % QUEUE_SIZE
    && s.q.readIndex == s.done % QUEUE_SIZE
    && s.q.tokens + Busy(s) == Outstanding(s) - s.skipped
    && s.skipped <= QUEUE_SIZE * laps <= Outstanding(s)
    && (s.injector.Reading? || s.injector.Working? ==> QUEUE_SIZE * laps < Outstanding(s))
  }

  /** Every cell of the ring holds the youngest entry written to it. */
  ghost predicate RingIsYoungest<T>(s: State<T>) {
    |s.q.ring| == QUEUE_SIZE &&
    forall i :: 0 <= i < |s.pushed| && |s.pushed| <= i + QUEUE_SIZE ==> s.q.ring[i % QUEUE_SIZE] == s.pushed[i]
  }

  ghost predicate Inv<T>(s: State<T>) {
    && (exists laps :: InvAt(s, laps))
    && RingIsYoungest(s)
  }

  /** (writeIndex - readIndex) mod 400 is the number of outstanding entries modulo 400. */
  lemma IndexDistance(a: nat, b: nat)
    requires b <= a
    ensures (a % QUEUE_SIZE - b % QUEUE_SIZE) % QUEUE_SIZE == (a - b) % QUEUE_SIZE
    ensures a % QUEUE_SIZE == b % QUEUE_SIZE <==> (a - b) % QUEUE_SIZE == 0
  {
    var qa, qb := a / QUEUE_SIZE, b / QUEUE_SIZE;
    assert a - b == QUEUE_SIZE * (qa - qb) + (a % QUEUE_SIZE - b % QUEUE_SIZE);
  }

  lemma NextIndex(a: nat)
    ensures Next(a % QUEUE_SIZE) == (a + 1) % QUEUE_SIZE
  {
    IndexDistance(a + 1, a);
  }

  function LapsAfter<T>(s: State<T>, e: Event<T>, laps: nat): nat
    requires Outstanding(s) >= 0
  {
    if e.Compare? && s.q.writeIndex == s.q.readIndex then Outstanding(s) / QUEUE_SIZE else laps
  }

  lemma StepKeepsLaps<T>(s: State<T>, e: Event<T>, laps: nat)
    requires InvAt(s, laps) && Enabled(s, e)
    ensures InvAt(Step(s, e), LapsAfter(s, e, laps))
  {
    match e
    case Timer(x) => NextIndex(|s.pushed|);
    case Down =>
    case Compare => IndexDistance(|s.pushed|, s.done);
    case Copy =>
    case Advance => NextIndex(s.done);
  }

  lemma StepKeepsInv<T>(s: State<T>, e: Event<T>)
    requires Inv(s) && Enabled(s, e)
    ensures Inv(Step(s, e))
  {
    var laps :| InvAt(s, laps);
    StepKeepsLaps(s, e, laps);
    if e.Timer? {
      TimerKeepsRing(s, e.x);
    }
  }

  lemma TimerKeepsRing<T>(s: State<T>, x: T)
    requires RingIsYoungest(s) && WellFormed(s.q) && s.q.writeIndex == |s.pushed| % QUEUE_SIZE
    ensures RingIsYoungest(Step(s, Timer(x)))
  {
    var t := Step(s, Timer(x));
    forall i | 0 <= i < |t.pushed| && |t.pushed| <= i + QUEUE_SIZE
      ensures t.q.ring[i % QUEUE_SIZE] == t.pushed[i]
    {
      IndexDistance(|s.pushed|, i);
    }
  }

  // ----- runs ----------------------------------------------------------------------------

  ghost predicate Run<T>(states: seq<State<T>>, events: seq<Event<T>>) {
    && |states| == |events| + 1
    && Initial(states[0])
    && forall k :: 0 <= k < |events| ==>
         WellFormed(states[k].q) ==> Enabled(states[k], events[k]) && states[k + 1] == Step(states[k], events[k])
  }

  lemma {:induction false} RunKeepsInv<T>(states: seq<State<T>>, events: seq<Event<T>>, k: nat)
    requires Run(states, events) && k < |states|
    ensures Inv(states[k])
    decreases k
  {
    if k == 0 {
      assert InvAt(states[0], 0);
    } else {
      RunKeepsInv(states, events, k - 1);
      StepKeepsInv(states[k - 1], events[k - 1]);
    }
  }

  /** In every interleaving, overflow or not, the tokens (plus the one in use) cover the distance
      of the indices: no entry the indices show is ever left without a wake-up. */
  lemma TokensCoverDistance<T>(states: seq<State<T>>, events: seq<Event<T>>, k: nat)
    requires Run(states, events) && k < |states|
    ensures var s := states[k];
            s.q.tokens + Busy(s) >= (s.q.writeIndex - s.q.readIndex) % QUEUE_SIZE
  {
    RunKeepsInv(states, events, k);
    var s := states[k];
    var laps :| InvAt(s, laps);
    var n := Outstanding(s);
    IndexDistance(|s.pushed|, s.done);
    assert n - QUEUE_SIZE * laps >= n % QUEUE_SIZE by {
      if n - QUEUE_SIZE * laps < QUEUE_SIZE {
        assert n / QUEUE_SIZE == laps;
      }
    }
  }

  /** The entry copied is number `done` of all entries ever pushed, counted on by 400 for every
      full lap the timer is ahead: it is the right one exactly while at most 400 are outstanding. */
  lemma CopyTakes<T>(s: State<T>)
    requires Inv(s) && s.injector.Reading?
    ensures 0 < Outstanding(s)
    ensures var i := s.done + QUEUE_SIZE * ((Outstanding(s) - 1) / QUEUE_SIZE);
            i < |s.pushed| && Step(s, Copy).injector.item == s.pushed[i]
    ensures Outstanding(s) <= QUEUE_SIZE <==>
            s.done + QUEUE_SIZE * ((Outstanding(s) - 1) / QUEUE_SIZE) == s.done
  {
    var n := Outstanding(s);
    var i := s.done + QUEUE_SIZE * ((n - 1) / QUEUE_SIZE);
    assert i % QUEUE_SIZE == s.done % QUEUE_SIZE;
    NoLap(n - 1);
  }

  lemma NoLap(n: nat)
    ensures n < QUEUE_SIZE <==> QUEUE_SIZE * (n / QUEUE_SIZE) == 0
  {}

  predicate TakenInOrder<T(==)>(s: State<T>) {
    && s.done <= |s.taken| <= |s.pushed|
    && |s.taken| == s.done + (if s.injector.Working? then 1 else 0)
    && s.taken == s.pushed[..|s.taken|]
    && (s.injector.Working? ==> s.injector.item == s.pushed[s.done])
  }

  lemma {:induction false} NoOverflowMeansFifo<T>(states: seq<State<T>>, events: seq<Event<T>>, k: nat)
    requires Run(states, events) && k < |states|
    requires forall j :: 0 <= j < k && events[j].Copy? ==> Outstanding(states[j]) <= QUEUE_SIZE
    ensures TakenInOrder(states[k])
    decreases k
  {
    if k > 0 {
      var s, e := states[k - 1], events[k - 1];
      NoOverflowMeansFifo(states, events, k - 1);
      RunKeepsInv(states, events, k - 1);
      if e.Copy? {
        CopyTakes(s);
      }
    }
  }

  /** Below 400 outstanding entries no token is wasted, and the injector never sleeps on work. */
  lemma NoOverflowMeansNoWaste<T>(states: seq<State<T>>, events: seq<Event<T>>, k: nat)
    requires Run(states, events) && k < |states|
    requires forall j :: 0 <= j <= k ==> Outstanding(states[j]) < QUEUE_SIZE
    ensures states[k].skipped == 0
    ensures states[k].q.tokens + Busy(states[k]) == Outstanding(states[k])
    ensures states[k].injector.Asleep? ==> (Enabled(states[k], Down) <==> states[k].done < |states[k].pushed|)
  {
    RunKeepsInv(states, events, k);
    var laps :| InvAt(states[k], laps);
    assert laps == 0;
  }
}
