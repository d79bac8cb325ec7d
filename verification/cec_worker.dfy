/** The HDMI-CEC sender (cec/cec_worker.c) and the claiming of a logical address by pinging
    (cec/cec_opcodes.c; section CEC 10.2.1 of HDMI 1.3a, Supplement 1). The controller is an
    environment that raises an interrupt for every byte sent, at the end of a message and on errors. */
module CecWorker {
  import opened Bytes
  import opened Words

  const SEND_BUF_SIZE := 16
  const DEFAULT_RETRY_COUNT := 3
  const UNREGISTERED := 15
  const ANY_DEVICE := -1          // the mask 0xFF of the last table entry

  // ----- the candidate addresses ---------------------------------------------------------

  datatype Choice = Choice(device: int, address: nat)

  const CHOICES: seq<Choice> :=
    [Choice(4, 4), Choice(4, 8), Choice(4, 11),     // DVD player
     Choice(3, 3), Choice(3, 6), Choice(3, 7),      // set-top box
     Choice(1, 1), Choice(1, 2),                    // recorder
     Choice(ANY_DEVICE, UNREGISTERED)]

  /** What the claiming relies on: the last entry is for every device and stands for the
      unregistered address, which no other entry names. */
  predicate GoodTable(choices: seq<Choice>) {
    && choices != [] && choices[|choices| - 1] == Choice(ANY_DEVICE, UNREGISTERED)
    && forall i :: 0 <= i < |choices| - 1 ==> choices[i].address < UNREGISTERED
  }

  lemma TheTableIsGood()
    ensures GoodTable(CHOICES)
  {
  }

  predicate Matches(choices: seq<Choice>, device: nat, i: nat)
    requires i < |choices|
  {
    choices[i].device == device || choices[i].device == ANY_DEVICE
  }

  /** The first matching entry from i on; past the table when the last one has been used. */
  function FirstMatch(choices: seq<Choice>, device: nat, i: nat): (j: nat)
    requires i <= |choices| && GoodTable(choices)
    ensures i <= j <= |choices|
    ensures i < |choices| ==> j < |choices|
    decreases |choices| - i
  {
    if i == |choices| || Matches(choices, device, i) then i else FirstMatch(choices, device, i + 1)
  }

  /** The addresses of a device type from entry i on, in table order. */
  function Candidates(choices: seq<Choice>, device: nat, i: nat): seq<nat>
    requires i <= |choices|
    decreases |choices| - i
  {
    if i == |choices| then []
    else if Matches(choices, device, i) then [choices[i].address] + Candidates(choices, device, i + 1)
    else Candidates(choices, device, i + 1)
  }

  lemma CandidatesFrom(device: nat, i: nat)
    requires i < |CHOICES|
    ensures Candidates(CHOICES, device, i)
            == if CHOICES[i].device == device || CHOICES[i].device == -1
               then [CHOICES[i].address] + Candidates(CHOICES, device, i + 1) else Candidates(CHOICES, device, i + 1)
  {}

  /** The addresses that each type of device may claim, in the order in which they are tried. */
  lemma CandidatesByType(device: nat)
    ensures Candidates(CHOICES, device, 0) ==
            if device == 4 then [4, 8, 11, 15]
            else if device == 3 then [3, 6, 7, 15]
            else if device == 1 then [1, 2, 15]
            else [15]
  {
    CandidatesFrom(device, 8);
    CandidatesFrom(device, 7);
    CandidatesFrom(device, 6);
    CandidatesFrom(device, 5);
    CandidatesFrom(device, 4);
    CandidatesFrom(device, 3);
    CandidatesFrom(device, 2);
    CandidatesFrom(device, 1);
    CandidatesFrom(device, 0);
  }

  // ----- the state -----------------------------------------------------------------------

  /** The message on its way: handed to the controller, on the bus (with the end of the message
      announced or not), or none. */
  datatype Wire = Quiet | Loaded | Busy(last: bool)

  /** `tx` lists the bytes written to the transmitter since the message was handed over; `starts`
      and `allStarts` count the starts of this message and of all of them, `tried` the addresses
      pinged; `wanted` is the message the caller gave. */
  datatype Cec = Cec(sending: bool, index: nat, buf: seq<Byte>, retries: nat,
                     kiss: bool, logical: nat, choices: seq<Choice>, next: nat, device: nat,
                     wire: Wire, tx: seq<Byte>, starts: nat, wanted: seq<Byte>,
                     tried: nat, allStarts: nat)

  datatype Event =
    | Send(message: seq<Byte>)      // a caller's message
    | Task                          // cec_task takes the semaphore and starts sending
    | ByteSent                      // interrupt: a byte is on the bus, another is wanted
    | MessageSent                   // interrupt: end of message
    | SendError(nack: bool)         // interrupt: error, not acknowledged or other

  /** What a truthful controller and a waiting caller may do. */
  predicate Enabled(s: Cec, e: Event) {
    match e
    case Send(message) => !s.sending && 1 <= |message| <= SEND_BUF_SIZE
    case Task => s.wire == Loaded
    case ByteSent => s.wire == Busy(false)
    case MessageSent => s.wire == Busy(true)
    case SendError(_) => s.wire.Busy?
  }

  /** The message with the own logical address as its source. */
  function Addressed(message: seq<Byte>, logical: nat): (a: seq<Byte>)
    requires message != [] && logical < 16
    ensures |a| == |message| && a[0] / 16 == logical && a[0] % 16 == message[0] % 16
    ensures a[1..] == message[1..]
  {
    [logical * 16 + message[0] % 16] + message[1..]
  }

  /** sendMessageWithRetry, past its waiting. */
  function Handed(s: Cec, message: seq<Byte>, retry: nat): Cec
    requires message != [] && s.logical < 16
  {
    var buf := Addressed(message, s.logical);
    s.(sending := true, index := 1, buf := buf, retries := retry, wire := Loaded, tx := [buf[0]])
  }

  function Fresh(s: Cec, message: seq<Byte>): Cec
    requires message != [] && s.logical < 16
  {
    Handed(s, message, DEFAULT_RETRY_COUNT).(starts := 0, wanted := message)
  }

  /** sendPingWithAutoIncrement, while the table lasts. */
  function PingNext(s: Cec): Cec
    requires GoodTable(s.choices) && s.next < |s.choices|
  {
    var i := FirstMatch(s.choices, s.device, s.next);
    var a := s.choices[i].address;
    var claimed := s.(kiss := true, logical := a, next := FirstMatch(s.choices, s.device, i + 1), tried := s.tried + 1);
    Fresh(claimed, [a * 16 + a])
  }

  function Retried(s: Cec): Cec
    requires s.buf != [] && s.logical < 16
  {
    if s.retries > 0 then Handed(s, s.buf, s.retries - 1) else s
  }

  function Step(s: Cec, e: Event): Cec
    requires Inv(s) && Enabled(s, e)
  {
    match e
    case Send(message) => Fresh(s, message)
    case Task => s.(wire := Busy(|s.buf| == 1), starts := s.starts + 1, allStarts := s.allStarts + 1)
    case ByteSent =>
      s.(tx := s.tx + [s.buf[s.index]], index := s.index + 1, wire := Busy(s.index + 1 == |s.buf|))
    case MessageSent =>
      var idle := s.(sending := false, wire := Quiet);
      if s.index == 1 && s.buf[0] / 16 == s.buf[0] % 16 == s.logical && s.logical != UNREGISTERED
      then PingNext(idle) else idle
    case SendError(nack) =>
      var idle := s.(sending := false, wire := Quiet);
      if s.kiss && nack then idle.(kiss := false) else Retried(idle)
  }

  // ----- what every step keeps -----------------------------------------------------------

  predicate Inv(s: Cec) {
    && GoodTable(s.choices) && s.logical < 16 && s.next <= |s.choices|
    && (s.logical != UNREGISTERED ==> s.next < |s.choices|)
    && (s.sending <==> s.wire != Quiet)
    && (s.sending ==>
         && 1 <= s.index <= |s.buf| <= SEND_BUF_SIZE
         && s.wanted != [] && s.buf == Addressed(s.wanted, s.logical)
         && s.tx == s.buf[..s.index])
    && (s.wire == Loaded ==> s.index == 1 && s.starts + s.retries == DEFAULT_RETRY_COUNT)
    && (s.wire.Busy? ==> s.wire.last == (s.index == |s.buf|) && s.starts + s.retries == DEFAULT_RETRY_COUNT + 1)
    && (!s.sending ==> s.starts <= DEFAULT_RETRY_COUNT + 1)
  }

  lemma AddressedTwice(message: seq<Byte>, logical: nat)
    requires message != [] && logical < 16
    ensures Addressed(Addressed(message, logical), logical) == Addressed(message, logical)
  {
  }

  lemma StepKeepsInv(s: Cec, e: Event)
    requires Inv(s) && Enabled(s, e)
    ensures Inv(Step(s, e))
  {
    if e.SendError? {
      AddressedTwice(s.wanted, s.logical);
    }
  }

  /** The header with the own address as its source and the destination that was asked for, and behind it
      the bytes that were given. */
  predicate GoesOut(bytes: seq<Byte>, message: seq<Byte>, logical: nat) {
    message != [] && bytes == [16 * logical + message[0] % 16] + message[1..]
  }

  lemma AddressedGoesOut(message: seq<Byte>, logical: nat)
    requires message != [] && logical < 16
    ensures GoesOut(Addressed(message, logical), message, logical)
  {
    var a := Addressed(message, logical);
    assert a == [a[0]] + a[1..] && a[0] == 16 * logical + message[0] % 16;
  }

  /** On every message: what has been written since the last start is the beginning of what goes out, the
      whole of it when the end of the message is reported, and no message is started more than 1 + 3
      times. What goes out is the message that was given last, or while an address is claimed its ping. */
  lemma SenderIsCorrect(states: seq<Cec>, events: seq<Event>, k: nat)
    requires Run(states, events) && k < |events|
    ensures var s := states[k];
            && Inv(s)
            && (s.sending ==> GoesOut(s.buf, s.wanted, s.logical) && s.tx <= s.buf)
            && (events[k].MessageSent? ==> s.sending && GoesOut(s.tx, s.wanted, s.logical))
            && s.starts <= 4
    ensures var s, t := states[k], states[k + 1];
            match events[k]
            case Send(message) => t.wanted == message && GoesOut(t.buf, message, t.logical) && t.tx == [t.buf[0]]
            case MessageSent => t.wanted == s.wanted || (t.logical < 16 && t.wanted == [16 * t.logical + t.logical])
            case _ => t.wanted == s.wanted
  {
    RunKeepsInv(states, events, k);
    var s := states[k];
    assert Linked(s, events[k], states[k + 1]);
    if s.sending {
      AddressedGoesOut(s.wanted, s.logical);
    }
    if events[k].Send? {
      AddressedGoesOut(events[k].message, s.logical);
    }
  }

  predicate Linked(s: Cec, e: Event, t: Cec) {
    Inv(s) ==> Enabled(s, e) && t == Step(s, e)
  }

  predicate Run(states: seq<Cec>, events: seq<Event>) {
    && |states| == |events| + 1
    && Inv(states[0])
    && forall k :: 0 <= k < |events| ==> Linked(states[k], events[k], states[k + 1])
  }

  lemma {:induction false} RunKeepsInv(states: seq<Cec>, events: seq<Event>, k: nat)
    requires Run(states, events) && k < |states|
    ensures Inv(states[k]) && (k < |events| ==> Enabled(states[k], events[k]))
    decreases k
  {
    if k > 0 {
      RunKeepsInv(states, events, k - 1);
      assert Linked(states[k - 1], events[k - 1], states[k - 1 + 1]);
      StepKeepsInv(states[k - 1], events[k - 1]);
    }
    assert k < |events| ==> Linked(states[k], events[k], states[k + 1]);
  }

  // ----- claiming an address -------------------------------------------------------------

  lemma {:induction false} CandidatesNext(choices: seq<Choice>, device: nat, i: nat)
    requires GoodTable(choices) && i < |choices|
    ensures var j := FirstMatch(choices, device, i);
            && Candidates(choices, device, i) == [choices[j].address] + Candidates(choices, device, j + 1)
            && (choices[j].address == UNREGISTERED <==> j == |choices| - 1)
    decreases |choices| - i
  {
    if !Matches(choices, device, i) {
      CandidatesNext(choices, device, i + 1);
    }
  }

  lemma {:induction false} CandidatesSkip(choices: seq<Choice>, device: nat, i: nat)
    requires GoodTable(choices) && i <= |choices|
    ensures Candidates(choices, device, i) == Candidates(choices, device, FirstMatch(choices, device, i))
    decreases |choices| - i
  {
    if i < |choices| && !Matches(choices, device, i) {
      CandidatesSkip(choices, device, i + 1);
    }
  }

  lemma {:induction false} CandidatesBound(choices: seq<Choice>, device: nat, i: nat)
    requires i <= |choices|
    ensures |Candidates(choices, device, i)| <= |choices| - i
    decreases |choices| - i
  {
    if i < |choices| {
      CandidatesBound(choices, device, i + 1);
    }
  }

  /** What the bus may report while only pings are sent: an address answers when it is occupied;
      other errors may come at any time. */
  predicate Honest(s: Cec, e: Event, occupied: set<nat>) {
    && Enabled(s, e) && !e.Send?
    && (e.MessageSent? ==> s.logical in occupied)
    && (e == SendError(true) ==> s.logical !in occupied)
  }

  /** All the candidates are the addresses found taken, then `rest`. */
  predicate TakenThen(all: seq<nat>, n: nat, rest: seq<nat>, occupied: set<nat>) {
    && n <= |all| && all[n..] == rest
    && forall m :: 0 <= m < n ==> all[m] in occupied
  }

  lemma OneMoreTaken(all: seq<nat>, n: nat, a: nat, rest: seq<nat>, occupied: set<nat>)
    requires TakenThen(all, n, [a] + rest, occupied) && a in occupied
    ensures TakenThen(all, n + 1, rest, occupied)
  {
    assert all[n..][0] == a && all[n..][1..] == all[n + 1..];
    assert ([a] + rest)[1..] == rest;
  }

  /** The addresses before the one at hand are taken; the claim is over when its ping was not
      answered, or at the unregistered address, or when the retries have run out. */
  predicate ClaimInv(s: Cec, occupied: set<nat>) {
    && Inv(s)
    && s.tried >= 1
    && TakenThen(Candidates(s.choices, s.device, 0), s.tried - 1,
                 [s.logical] + Candidates(s.choices, s.device, s.next), occupied)
    && (s.sending ==> s.kiss && s.wanted == [s.logical * 16 + s.logical])
    && (!s.kiss ==> s.logical !in occupied)
    && (!s.sending && s.kiss ==> s.logical == UNREGISTERED || s.retries == 0)
    && s.allStarts <= 4 * (s.tried - 1) + s.starts
  }

  lemma PingNextClaims(s: Cec, occupied: set<nat>)
    requires Inv(s) && !s.sending && s.next < |s.choices|
    requires TakenThen(Candidates(s.choices, s.device, 0), s.tried, Candidates(s.choices, s.device, s.next), occupied)
    requires s.allStarts <= 4 * s.tried
    ensures ClaimInv(PingNext(s), occupied)
  {
    var i := FirstMatch(s.choices, s.device, s.next);
    CandidatesNext(s.choices, s.device, s.next);
    CandidatesSkip(s.choices, s.device, i + 1);
    var a := s.choices[i].address;
    assert Addressed([a * 16 + a], a) == [a * 16 + a];
  }

  lemma PingAnswered(s: Cec, occupied: set<nat>)
    requires ClaimInv(s, occupied) && s.wire == Busy(true) && s.logical in occupied && s.logical != UNREGISTERED
    ensures ClaimInv(Step(s, MessageSent), occupied)
  {
    OneMoreTaken(Candidates(s.choices, s.device, 0), s.tried - 1, s.logical,
                 Candidates(s.choices, s.device, s.next), occupied);
    assert s.index == 1 && s.buf[0] == s.logical * 16 + s.logical;
    PingNextClaims(s.(sending := false, wire := Quiet), occupied);
  }

  lemma ClaimStep(s: Cec, e: Event, occupied: set<nat>)
    requires ClaimInv(s, occupied) && Honest(s, e, occupied)
    ensures ClaimInv(Step(s, e), occupied)
  {
    StepKeepsInv(s, e);
    if e.MessageSent? && s.logical != UNREGISTERED {
      PingAnswered(s, occupied);
    } else if e.SendError? {
      AddressedTwice(s.wanted, s.logical);
    }
  }

  /** Before the driver sends its first ping. */
  predicate Unclaimed(s: Cec, device: nat) {
    Inv(s) && !s.sending && s.choices == CHOICES && s.next == 0 && s.tried == 0 && s.allStarts == 0 && s.device == device < 8
  }

  predicate ClaimLink(s: Cec, e: Event, t: Cec, occupied: set<nat>) {
    ClaimInv(s, occupied) ==> Honest(s, e, occupied) && t == Step(s, e)
  }

  predicate ClaimRun(s: Cec, states: seq<Cec>, events: seq<Event>, device: nat, occupied: set<nat>) {
    && |states| == |events| + 1
    && Unclaimed(s, device) && states[0] == PingNext(s)
    && forall k :: 0 <= k < |events| ==> ClaimLink(states[k], events[k], states[k + 1], occupied)
  }

  lemma StepKeepsTable(s: Cec, e: Event)
    requires Inv(s) && Enabled(s, e)
    ensures Step(s, e).device == s.device && Step(s, e).choices == s.choices
  {
  }

  lemma {:induction false} ClaimRunKeeps(s: Cec, states: seq<Cec>, events: seq<Event>, device: nat, occupied: set<nat>, k: nat)
    requires ClaimRun(s, states, events, device, occupied) && k < |states|
    ensures ClaimInv(states[k], occupied) && states[k].device == device && states[k].choices == CHOICES
    decreases k
  {
    if k == 0 {
      var all := Candidates(s.choices, device, 0);
      assert all[0..] == all;
      PingNextClaims(s, occupied);
    } else {
      ClaimRunKeeps(s, states, events, device, occupied, k - 1);
      assert ClaimLink(states[k - 1], events[k - 1], states[k - 1 + 1], occupied);
      ClaimStep(states[k - 1], events[k - 1], occupied);
      StepKeepsTable(states[k - 1], events[k - 1]);
    }
  }

  /** The first candidate that is not occupied; the unregistered address when all are. */
  function FirstFree(all: seq<nat>, occupied: set<nat>): nat {
    if all == [] then UNREGISTERED
    else if all[0] in occupied then FirstFree(all[1..], occupied) else all[0]
  }

  lemma {:induction false} FirstFreeIs(all: seq<nat>, occupied: set<nat>, n: nat)
    requires n < |all| && all[n] !in occupied
    requires forall m :: 0 <= m < n ==> all[m] in occupied
    ensures FirstFree(all, occupied) == all[n]
    decreases n
  {
    if n > 0 {
      FirstFreeIs(all[1..], occupied, n - 1);
    }
  }

  /** For any set of occupied addresses and any pattern of transient errors: when the claim
      succeeds, the device holds the first free address of its type in table order; when it has come
      to rest without success, it stands at the unregistered address or the retries of its last
      ping have run out. The pings are bounded. */
  lemma ClaimTakesFirstFree(s: Cec, states: seq<Cec>, events: seq<Event>, device: nat, occupied: set<nat>, k: nat)
    requires ClaimRun(s, states, events, device, occupied) && k < |states|
    ensures var t, all := states[k], Candidates(CHOICES, device, 0);
            && (!t.kiss ==> t.logical == FirstFree(all, occupied))
            && (t.kiss && !t.sending ==> t.logical == UNREGISTERED || t.retries == 0)
            && t.tried <= |all| <= |CHOICES|
            && t.allStarts <= (1 + DEFAULT_RETRY_COUNT) * |all|
  {
    ClaimRunKeeps(s, states, events, device, occupied, k);
    CandidatesBound(CHOICES, device, 0);
    var t, all := states[k], Candidates(CHOICES, device, 0);
    assert all[t.tried - 1..][0] == t.logical;
    if !t.kiss {
      FirstFreeIs(all, occupied, t.tried - 1);
    }
  }

  /** What the events alone tell of a claim: the pings that were answered, and the transient errors that
      the present ping has met. */
  function AnsweredPings(events: seq<Event>, k: nat): nat
    requires k <= |events|
  {
    if k == 0 then 0
    else if events[k - 1].MessageSent? then AnsweredPings(events, k - 1) + 1
    else AnsweredPings(events, k - 1)
  }

  function TransientErrors(events: seq<Event>, k: nat): nat
    requires k <= |events|
  {
    if k == 0 || events[k - 1].MessageSent? then 0
    else if events[k - 1] == SendError(false) then TransientErrors(events, k - 1) + 1
    else TransientErrors(events, k - 1)
  }

  /** A ping on its way has met an error for each start that is over. One that is over was answered, at
      the unregistered address; was not answered; or met one error more than it has retries. */
  predicate Accounted(t: Cec, events: seq<Event>, k: nat)
    requires k <= |events|
  {
    var errors := TransientErrors(events, k);
    && (t.wire == Loaded ==> errors == t.starts)
    && (t.wire.Busy? ==> errors + 1 == t.starts)
    && (t.sending ==> AnsweredPings(events, k) + 1 == t.tried)
    && (!t.sending ==> k > 0 && Over(t, events[k - 1], errors, AnsweredPings(events, k)))
  }

  predicate Over(t: Cec, last: Event, errors: nat, answered: nat) {
    match last
    case MessageSent => t.kiss && t.logical == UNREGISTERED
    case SendError(nack) =>
      t.kiss == !nack && (errors == DEFAULT_RETRY_COUNT + 1 <==> !nack) && answered + 1 == t.tried
    case _ => false
  }

  lemma PingNextAccounted(s: Cec, events: seq<Event>, k: nat)
    requires Inv(s) && s.next < |s.choices| && k <= |events|
    requires TransientErrors(events, k) == 0 && AnsweredPings(events, k) == s.tried
    ensures Accounted(PingNext(s), events, k)
  {
  }

  lemma StepAccounted(s: Cec, e: Event, events: seq<Event>, k: nat, occupied: set<nat>)
    requires ClaimInv(s, occupied) && Honest(s, e, occupied) && k < |events| && events[k] == e
    requires Accounted(s, events, k)
    ensures Accounted(Step(s, e), events, k + 1)
  {
    assert |s.buf| == 1 && s.buf[0] / 16 == s.buf[0] % 16 == s.logical;
    if e.MessageSent? && s.logical != UNREGISTERED {
      PingNextAccounted(s.(sending := false, wire := Quiet), events, k + 1);
    }
  }

  lemma {:induction false} ClaimAccounted(
      s: Cec, states: seq<Cec>, events: seq<Event>, device: nat, occupied: set<nat>, k: nat)
    requires ClaimRun(s, states, events, device, occupied) && k < |states|
    ensures Accounted(states[k], events, k)
    decreases k
  {
    if k == 0 {
      PingNextAccounted(s, events, 0);
    } else {
      ClaimAccounted(s, states, events, device, occupied, k - 1);
      ClaimRunKeeps(s, states, events, device, occupied, k - 1);
      assert ClaimLink(states[k - 1], events[k - 1], states[k - 1 + 1], occupied);
      StepAccounted(states[k - 1], events[k - 1], events, k - 1, occupied);
    }
  }

  /** A claim that has come to rest succeeded exactly when its last ping was not answered. It has failed
      short of the unregistered address exactly when a ping for another one has met four transient
      errors; the events alone tell how many a ping has met and which one it is. */
  lemma ClaimFailsExactlyWhen(s: Cec, states: seq<Cec>, events: seq<Event>, device: nat, occupied: set<nat>, k: nat)
    requires ClaimRun(s, states, events, device, occupied) && k < |states|
    ensures !states[k].sending ==> k > 0 && (!states[k].kiss <==> events[k - 1] == SendError(true))
    ensures var t, all, n := states[k], Candidates(CHOICES, device, 0), AnsweredPings(events, k);
            !t.sending && t.kiss && t.logical != UNREGISTERED <==>
            TransientErrors(events, k) == DEFAULT_RETRY_COUNT + 1 && n < |all| && all[n] != UNREGISTERED
  {
    ClaimRunKeeps(s, states, events, device, occupied, k);
    ClaimAccounted(s, states, events, device, occupied, k);
    var t, all := states[k], Candidates(CHOICES, device, 0);
    assert all[t.tried - 1..][0] == t.logical;
  }

  lemma {:induction false} UnregisteredIsLast(choices: seq<Choice>, device: nat, i: nat, n: nat)
    requires GoodTable(choices) && i <= |choices| && n < |Candidates(choices, device, i)|
    ensures Candidates(choices, device, i)[n] == UNREGISTERED <==> n == |Candidates(choices, device, i)| - 1
    decreases |choices| - i
  {
    if !Matches(choices, device, i) {
      UnregisteredIsLast(choices, device, i + 1, n);
    } else if i == |choices| - 1 {
      assert Candidates(choices, device, |choices|) == [];
    } else {
      CandidatesNext(choices, device, i + 1);
      if n > 0 {
        UnregisteredIsLast(choices, device, i + 1, n - 1);
      }
    }
  }

  lemma {:induction false} FirstFreeIsLast(all: seq<nat>, occupied: set<nat>)
    requires all != [] && all[|all| - 1] == UNREGISTERED
    requires forall m :: 0 <= m < |all| - 1 ==> all[m] in occupied
    ensures FirstFree(all, occupied) == UNREGISTERED
  {
    if |all| > 1 {
      FirstFreeIsLast(all[1..], occupied);
    }
  }

  /** With at most three transient errors on each ping, a claim that has come to rest stands at the first
      free candidate, and it is without success only where that is the unregistered address. */
  lemma ThreeErrorsAreSurvived(s: Cec, states: seq<Cec>, events: seq<Event>, device: nat, occupied: set<nat>, k: nat)
    requires ClaimRun(s, states, events, device, occupied) && k < |states| && !states[k].sending
    requires forall j :: 0 <= j <= k ==> TransientErrors(events, j) <= DEFAULT_RETRY_COUNT
    ensures states[k].logical == FirstFree(Candidates(CHOICES, device, 0), occupied)
    ensures states[k].kiss ==> states[k].logical == UNREGISTERED
  {
    ClaimRunKeeps(s, states, events, device, occupied, k);
    ClaimAccounted(s, states, events, device, occupied, k);
    var t, all := states[k], Candidates(CHOICES, device, 0);
    assert all[t.tried - 1..][0] == t.logical;
    if t.kiss {
      assert TransientErrors(events, k) <= DEFAULT_RETRY_COUNT;
      UnregisteredIsLast(CHOICES, device, 0, t.tried - 1);
      FirstFreeIsLast(all, occupied);
    } else {
      FirstFreeIs(all, occupied, t.tried - 1);
    }
  }

  /** The n-th step of a ping that fails with a transient error every time: started, failed, .. */
  function Failing(n: nat): Event {
    if n % 2 == 0 then Event.Task else SendError(false)
  }

  function AfterFailing(s: Cec, n: nat): Cec
    requires Inv(s) && s.wire == Loaded && s.retries == DEFAULT_RETRY_COUNT && n <= 8
    ensures var t := AfterFailing(s, n);
            && Inv(t) && t.kiss == s.kiss && t.logical == s.logical
            && t.starts == s.starts + (n + 1) / 2 && t.retries == DEFAULT_RETRY_COUNT - (if n == 8 then 3 else n / 2)
            && (if n == 8 then t.wire == Quiet else if n % 2 == 0 then t.wire == Loaded else t.wire.Busy?)
  {
    if n == 0 then s
    else
      var t := AfterFailing(s, n - 1);
      StepKeepsInv(t, Failing(n - 1));
      Step(t, Failing(n - 1))
  }

  lemma FailingLink(s: Cec, n: nat, occupied: set<nat>)
    requires Inv(s) && s.wire == Loaded && s.retries == DEFAULT_RETRY_COUNT && n < 8
    ensures ClaimLink(AfterFailing(s, n), Failing(n), AfterFailing(s, n + 1), occupied)
  {
    var t := AfterFailing(s, n);
    assert Enabled(t, Failing(n));
  }

  function FailingStates(s: Cec): (states: seq<Cec>)
    requires Inv(s) && s.wire == Loaded && s.retries == DEFAULT_RETRY_COUNT
    ensures |states| == 9
  {
    seq(9, n requires 0 <= n < 9 => AfterFailing(s, n))
  }

  function FailingEvents(): (events: seq<Event>)
    ensures |events| == 8
  {
    seq(8, n requires 0 <= n < 8 => Failing(n))
  }

  lemma PingIsLoaded(s: Cec, device: nat)
    requires Unclaimed(s, device)
    ensures var p := PingNext(s);
            Inv(p) && p.wire == Loaded && p.retries == DEFAULT_RETRY_COUNT && p.kiss
            && p.logical == FirstFree(Candidates(CHOICES, device, 0), {})
  {
    CandidatesNext(CHOICES, device, 0);
    var i := FirstMatch(s.choices, s.device, s.next);
    var a := s.choices[i].address;
    CandidatesNext(CHOICES, device, i);
    assert Addressed([a * 16 + a], a) == [a * 16 + a];
  }

  /** Four transient errors in a row end a claim at its first address, free or not, unsuccessfully: the
      retries run out before the bus has answered. */
  lemma FourErrorsEndTheClaim(s: Cec, device: nat, occupied: set<nat>)
    requires Unclaimed(s, device)
    ensures exists states: seq<Cec>, events: seq<Event> :: ClaimRun(s, states, events, device, occupied)
              && var t := states[|events|];
                 t.kiss && !t.sending && t.logical == FirstFree(Candidates(CHOICES, device, 0), {})
  {
    var p := PingNext(s);
    PingIsLoaded(s, device);
    var states, events := FailingStates(p), FailingEvents();
    forall k | 0 <= k < |events| ensures ClaimLink(states[k], events[k], states[k + 1], occupied) {
      FailingLink(p, k, occupied);
    }
    assert ClaimRun(s, states, events, device, occupied);
  }

  // ----- the driver ----------------------------------------------------------------------

  const RECV_SOMSG := 16
  const RECV_EOMSG := 32
  const RECV_ERR := 64
  const RECV_BTF := 128
  const SEND_EOMSG := 2
  const SEND_ERR := 4
  const SEND_BTF := 8
  const ERROR_ACK := 16

  /** What an interrupt's status and error registers tell the sender, in the order of the tests. */
  function EventOf(status: Byte, error: Byte): Option<Event> {
    if Has(status, RECV_ERR) then None
    else if Has(status, SEND_ERR) then Some(SendError(Has(error, ERROR_ACK)))
    else if Has(status, RECV_BTF) then None
    else if Has(status, SEND_BTF) then Some(if Has(status, SEND_EOMSG) then MessageSent else ByteSent)
    else None
  }

  /** The tests in numbers: a receive error comes first, then a send error, of which 16 in the error register
      says that nobody acknowledged, then a byte received, then a byte sent, the last one of its message if 2 is
      set. */
  lemma EventsInNumbers(status: Byte, error: Byte)
    ensures EventOf(status, error) ==
            if status / 64 % 2 == 1 then None
            else if status / 4 % 2 == 1 then Some(SendError(error / 16 % 2 == 1))
            else if status / 128 == 1 then None
            else if status / 8 % 2 == 0 then None
            else if status / 2 % 2 == 1 then Some(MessageSent)
            else Some(ByteSent)
    ensures Receives(status) <==> status / 64 % 2 == 0 && status / 4 % 2 == 0 && status / 128 == 1
  {}

  predicate Receives(status: Byte) {
    !Has(status, RECV_ERR) && !Has(status, SEND_ERR) && Has(status, RECV_BTF)
  }

  class Worker {
    var isSending: bool
    var indexOfSendBuf: nat
    var sizeOfSendBuf: nat
    const sendBuf: array<Byte>
    var retries: nat
    var sendCommand: nat              // the semaphore cec_task waits on
    var isFirstKiss: bool
    var choicesIndex: nat
    var logicalDeviceType: nat
    const deviceType: nat
    const choices: seq<Choice>        // logicalDeviceTypeChoices
    const recvBuf: array<Byte>
    var indexOfRecvBuf: nat
    var written: seq<Byte>            // to CEC_TX, since the message at hand was handed over
    ghost var cec: Cec                // the state of the step machine
    ghost var frames: seq<seq<Byte>>  // messages received and passed on to the reader

    /** The fields hold the state, and a message not started yet has one semaphore token. */
    ghost predicate Mirrors()
      reads this, sendBuf
    {
      && sendBuf.Length == SEND_BUF_SIZE && recvBuf.Length == SEND_BUF_SIZE && sendBuf != recvBuf
      && indexOfRecvBuf <= SEND_BUF_SIZE
      && isSending == cec.sending && indexOfSendBuf == cec.index
      && sizeOfSendBuf <= SEND_BUF_SIZE && sendBuf[..sizeOfSendBuf] == cec.buf && written == cec.tx
      && retries == cec.retries && isFirstKiss == cec.kiss
      && logicalDeviceType == cec.logical && deviceType == cec.device
      && choices == cec.choices && choicesIndex == cec.next && GoodTable(choices)
      && sendCommand == (if cec.wire == Loaded then 1 else 0)
    }

    ghost predicate Valid()
      reads this, sendBuf
    {
      Mirrors() && Inv(cec)
    }

    constructor (device: nat)
      requires device < 8
      ensures Valid() && Unclaimed(cec, device) && fresh(sendBuf) && fresh(recvBuf) && frames == []
      ensures logicalDeviceType == 4 && retries == 3 && !isFirstKiss && deviceType == device && choices == CHOICES
      ensures sendBuf.Length == 16 && recvBuf.Length == 16
    {
      isSending, indexOfSendBuf, sizeOfSendBuf, retries, sendCommand := false, 0, 0, DEFAULT_RETRY_COUNT, 0;
      sendBuf := new Byte[SEND_BUF_SIZE](_ => 0);
      recvBuf := new Byte[SEND_BUF_SIZE](_ => 0);
      indexOfRecvBuf, frames, written := 0, [], [];
      isFirstKiss, choicesIndex, logicalDeviceType, deviceType, choices := false, 0, 4, device, CHOICES;
      cec := Cec(false, 0, [], DEFAULT_RETRY_COUNT, false, 4, CHOICES, 0, device, Quiet, [], 0, [], 0, 0);
      new;
      TheTableIsGood();
    }

    method FillSendBuf(bytes: seq<Byte>)
      requires 1 <= |bytes| <= sendBuf.Length
      modifies sendBuf, this`sizeOfSendBuf
      ensures sizeOfSendBuf == |bytes| && sendBuf[..sizeOfSendBuf] == bytes && sendBuf[0] == bytes[0]
    {
      forall k | 0 <= k < |bytes| {
        sendBuf[k] := bytes[k];
      }
      sizeOfSendBuf := |bytes|;
    }

    /** sendMessageWithRetry, once its waiting for the message before is over: it gives up when that
        one is still on its way. */
    method SendMessageWithRetry(message: seq<Byte>, retry: nat) returns (r: int)
      requires Mirrors() && 1 <= |message| <= SEND_BUF_SIZE && logicalDeviceType < 16
      requires cec.sending || cec.wire == Quiet
      modifies this, sendBuf
      ensures Mirrors() && frames == old(frames)
      ensures r == if old(isSending) then -1 else 0
      ensures cec == if r == 0 then Handed(old(cec), message, retry) else old(cec)
      ensures r == 0 ==> sendBuf[..sizeOfSendBuf] == [16 * logicalDeviceType + message[0] % 16] + message[1..]
                         && written == [sendBuf[0]] && retries == retry && isSending && logicalDeviceType == old(logicalDeviceType)
    {
      if isSending {
        r := -1;
      } else {
        HandOver(message, retry);
        r := 0;
      }
    }

    method HandOver(message: seq<Byte>, retry: nat)
      requires Mirrors() && 1 <= |message| <= SEND_BUF_SIZE && logicalDeviceType < 16
      requires cec.wire == Quiet
      modifies this, sendBuf
      ensures Mirrors() && frames == old(frames)
      ensures cec == Handed(old(cec), message, retry) && isSending
      ensures GoesOut(sendBuf[..sizeOfSendBuf], message, logicalDeviceType) && written == [sendBuf[0]]
      ensures retries == retry && logicalDeviceType == old(logicalDeviceType)
    {
      cec := Handed(cec, message, retry);
      AddressedGoesOut(message, logicalDeviceType);
      Load(Addressed(message, logicalDeviceType));
      isSending, retries := true, retry;
      sendCommand := sendCommand + 1;                 // up
    }

    /** The message goes into the buffer, and its first byte to the transmitter. */
    method Load(bytes: seq<Byte>)
      requires 1 <= |bytes| <= sendBuf.Length
      modifies sendBuf, this`sizeOfSendBuf, this`indexOfSendBuf, this`written
      ensures sizeOfSendBuf == |bytes| && sendBuf[..sizeOfSendBuf] == bytes
      ensures indexOfSendBuf == 1 && written == [bytes[0]]
    {
      FillSendBuf(bytes);
      indexOfSendBuf := 0;
      written := [sendBuf[indexOfSendBuf]];           // cec_write_data
      indexOfSendBuf := indexOfSendBuf + 1;
    }

    method SendMessage(message: seq<Byte>) returns (r: int)
      requires Valid() && 1 <= |message| <= SEND_BUF_SIZE
      modifies this, sendBuf
      ensures Valid() && frames == old(frames)
      ensures r == if old(isSending) then -1 else 0
      ensures cec == if r == 0 then Step(old(cec), Send(message)) else old(cec)
      ensures r == 0 ==> cec.wanted == message && retries == 3
                         && sendBuf[..sizeOfSendBuf] == [16 * logicalDeviceType + message[0] % 16] + message[1..]
    {
      r := SendMessageWithRetry(message, DEFAULT_RETRY_COUNT);
      if r == 0 {
        cec := cec.(starts := 0, wanted := message);
        StepKeepsInv(old(cec), Send(message));
      }
    }

    /** One turn of cec_task: down, then the start of the message, announced as its only byte or not. */
    method Task()
      requires Valid() && sendCommand > 0
      modifies this`sendCommand, this`cec
      ensures Valid() && cec == Step(old(cec), Event.Task)
    {
      sendCommand := sendCommand - 1;
      StepKeepsInv(cec, Event.Task);
      cec := cec.(wire := Busy(sizeOfSendBuf == 1), starts := cec.starts + 1, allStarts := cec.allStarts + 1);
    }

    /** The index moves on to the next matching entry. The source looks for one even past the last
        entry; here the table's end stops it. */
    method SkipToMatch()
      requires choicesIndex <= |choices| && GoodTable(choices)
      modifies this`choicesIndex
      ensures choicesIndex == FirstMatch(choices, deviceType, old(choicesIndex))
    {
      while choicesIndex < |choices| && !Matches(choices, deviceType, choicesIndex)
        invariant choicesIndex <= |choices|
        invariant FirstMatch(choices, deviceType, choicesIndex) == old(FirstMatch(choices, deviceType, choicesIndex))
      {
        choicesIndex := choicesIndex + 1;
      }
    }

    /** The address of the first matching entry from the index on is taken as one's own. */
    method TakeNextAddress()
      requires Mirrors() && choicesIndex < |choices|
      modifies this
      ensures Mirrors() && frames == old(frames)
      ensures var i := FirstMatch(choices, deviceType, old(choicesIndex));
              cec == old(cec).(kiss := true, logical := choices[i].address, next := i + 1, tried := old(cec).tried + 1)
    {
      SkipToMatch();
      isFirstKiss := true;
      logicalDeviceType := choices[choicesIndex].address;
      choicesIndex := choicesIndex + 1;
      cec := cec.(kiss := true, logical := logicalDeviceType, next := choicesIndex, tried := cec.tried + 1);
    }

    /** sendPingWithAutoIncrement, while the table lasts. */
    method SendPingWithAutoIncrement()
      requires Mirrors() && !cec.sending && cec.wire == Quiet && choicesIndex < |choices|
      modifies this, sendBuf
      ensures Mirrors() && frames == old(frames)
      ensures cec == PingNext(old(cec))
      ensures [logicalDeviceType] <= Candidates(choices, deviceType, old(choicesIndex))
      ensures isFirstKiss && isSending && sendBuf[..sizeOfSendBuf] == [17 * logicalDeviceType]
    {
      CandidatesNext(choices, deviceType, choicesIndex);
      TakeNextAddress();
      var ping: seq<Byte> := [logicalDeviceType * 16 + logicalDeviceType];
      var _ := SendMessageWithRetry(ping, DEFAULT_RETRY_COUNT);
      SkipToMatch();
      cec := cec.(starts := 0, wanted := ping, next := choicesIndex);
    }

    /** The part of cec_interrupt that concerns sending: for every interrupt of a truthful
        controller, a step of the machine. */
    method Interrupt(status: Byte, error: Byte)
      requires Valid() && EventOf(status, error).Some? && Enabled(cec, EventOf(status, error).value)
      modifies this, sendBuf
      ensures Valid()
      ensures cec == Step(old(cec), EventOf(status, error).value)
      ensures frames == old(frames) + if EventOf(status, error) == Some(MessageSent) && |old(cec).buf| > 1 then [old(cec).buf] else []
    {
      StepKeepsInv(cec, EventOf(status, error).value);
      if Has(status, SEND_ERR) {
        OnError(Has(error, ERROR_ACK));
      } else if Has(status, SEND_EOMSG) {
        OnMessageSent();
      } else {
        OnByteSent();
      }
    }

    method OnError(nack: bool)
      requires Valid() && Enabled(cec, SendError(nack))
      modifies this, sendBuf
      ensures Mirrors() && frames == old(frames)
      ensures cec == Step(old(cec), SendError(nack))
      ensures isFirstKiss == (old(isFirstKiss) && !nack)
      ensures isSending == (old(retries) > 0 && !(old(isFirstKiss) && nack))
      ensures isSending ==> retries == old(retries) - 1
                            && sendBuf[..sizeOfSendBuf] == old(sendBuf[..sizeOfSendBuf]) && written == [sendBuf[0]]
    {
      isSending := false;
      cec := cec.(sending := false, wire := Quiet);
      if isFirstKiss {
        if nack {
          isFirstKiss := false;
          cec := cec.(kiss := false);
        } else if retries > 0 {
          var _ := SendMessageWithRetry(sendBuf[..sizeOfSendBuf], retries - 1);
        }
      } else if retries > 0 {
        var _ := SendMessageWithRetry(sendBuf[..sizeOfSendBuf], retries - 1);
      }
    }

    method OnByteSent()
      requires Valid() && Enabled(cec, ByteSent)
      modifies this
      ensures Mirrors() && frames == old(frames)
      ensures cec == Step(old(cec), ByteSent)
    {
      assert sendBuf[indexOfSendBuf] == cec.buf[indexOfSendBuf];
      written := written + [sendBuf[indexOfSendBuf]];           // cec_write_data
      indexOfSendBuf := indexOfSendBuf + 1;
      var last := indexOfSendBuf == sizeOfSendBuf;              // cec_acknowledge_eom or cec_acknowledge
      cec := cec.(tx := written, index := indexOfSendBuf, wire := Busy(last));
    }

    method OnMessageSent()
      requires Valid() && Enabled(cec, MessageSent)
      modifies this, sendBuf
      ensures Mirrors() && cec == Step(old(cec), MessageSent)
      ensures frames == if |old(cec).buf| > 1 then old(frames) + [old(cec).buf] else old(frames)
    {
      isSending := false;
      cec := cec.(sending := false, wire := Quiet);
      // parseRawMessage(indexOfSendBuf, sendBuf): a message of its header alone is a ping, any other
      // one is passed on, in the passive mode of the driver
      assert sendBuf[0] == cec.buf[0];
      var src, dst := sendBuf[0] / 16, sendBuf[0] % 16;
      if indexOfSendBuf > 1 {
        frames := frames + [sendBuf[..indexOfSendBuf]];
      } else if src == dst && src == logicalDeviceType {
        if logicalDeviceType != UNREGISTERED {
          SendPingWithAutoIncrement();
        }
      }
    }

    /** The part of cec_interrupt that concerns receiving, with the driver in its passive mode: a
        message of more than its header is passed on as it came. The controller delivers at most 16
        bytes, and no ping of another device in the own name. */
    method Receive(status: Byte, value: Byte)
      requires Valid() && Receives(status)
      requires Has(status, RECV_SOMSG) || indexOfRecvBuf < SEND_BUF_SIZE
      requires !OwnPing(status, value)
      modifies this`indexOfRecvBuf, this`frames, recvBuf
      ensures Valid()
      ensures var frame := (if status / 16 % 2 == 1 then [] else old(recvBuf[..indexOfRecvBuf])) + [value];
              && recvBuf[..indexOfRecvBuf] == frame
              && frames == old(frames) + if status / 32 % 2 == 1 && |frame| > 1 then [frame] else []
    {
      if Has(status, RECV_SOMSG) {
        indexOfRecvBuf := 0;
        forall k | 0 <= k < recvBuf.Length {
          recvBuf[k] := 0;
        }
      }
      recvBuf[indexOfRecvBuf] := value;
      indexOfRecvBuf := indexOfRecvBuf + 1;
      if Has(status, RECV_EOMSG) {
        if indexOfRecvBuf - 1 > 0 {
          frames := frames + [recvBuf[..indexOfRecvBuf]];       // AddMessageToBuffer
        }
      }
    }

    ghost predicate OwnPing(status: Byte, value: Byte)
      reads this
    {
      && Has(status, RECV_SOMSG) && Has(status, RECV_EOMSG)
      && value / 16 == value % 16 == logicalDeviceType
    }
  }
}
