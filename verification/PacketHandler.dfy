/**
  * The buffers between the network card's interrupt and the task that handles its packets (src/kernel/net/nethandler.c).
  * The interrupt is one step; the task is interrupted between any two of its accesses to the buffers.
  */
module PacketHandler {
  import opened Options

  const NUM_BUFFERS := 8
  const BUFFER_SIZE := 1536

  type Packet = seq<bv8>

  datatype BufferState = Empty | NeedsProcessing | CurrentlyProcessing

  class Buffer {
    var bytes: seq<bv8>
    var length: nat
    var state: BufferState

    constructor ()
      ensures bytes == Zeros(BUFFER_SIZE) && length == 0 && state == Empty
    {
      bytes, length, state := Zeros(BUFFER_SIZE), 0, Empty;
    }
  }

  function Zeros(n: nat): (r: seq<bv8>)
    ensures |r| == n && forall i | 0 <= i < n :: r[i] == 0
  {
    seq(n, i => 0)
  }

  /** Where the task is in its loop. */
  datatype Place =
    | Scan(i: nat)
    | Claim(i: nat)
    | Call(i: nat)
    | Read(i: nat, length: nat, got: Packet)
    | Clear(i: nat, done: nat)
    | Release(i: nat)

  /** A packet the worker's function got, and which of the accepted ones it is. */
  datatype Delivery = Delivery(id: nat, packet: Packet)

  ghost predicate Busy(place: Place, i: nat) {
    place.i == i && !place.Scan? && !place.Claim?
  }

  datatype BufferValue = BufferValue(bytes: seq<bv8>, length: nat, state: BufferState)

  /** The buffer's first bytes are an accepted packet. */
  ghost predicate Holds(b: BufferValue, accepted: seq<Packet>, id: nat) {
    id < |accepted| && b.length == |accepted[id]| && accepted[id] <= b.bytes
  }

  /** What a buffer holds, by its state. */
  ghost predicate Sound(b: BufferValue, held: Option<nat>, accepted: seq<Packet>, busy: bool) {
    && |b.bytes| == BUFFER_SIZE
    && (held.Some? ==> Holds(b, accepted, held.value))
    && match b.state
       case Empty => held == None && b.bytes == Zeros(BUFFER_SIZE) && !busy
       case NeedsProcessing => held.Some? && !busy
       case CurrentlyProcessing => busy
  }

  /** The task has read a prefix of its buffer's packet, or cleared a prefix of the buffer. */
  ghost predicate AtPlace(place: Place, b: BufferValue, held: Option<nat>) {
    match place
    case Scan(_) => true
    case Claim(_) => b.state == NeedsProcessing
    case Call(_) => held.Some?
    case Read(_, length, got) => held.Some? && length == b.length && |got| <= length && got <= b.bytes
    case Clear(_, done) => held == None && done <= BUFFER_SIZE == |b.bytes| && b.bytes[..done] == Zeros(done)
    case Release(_) => held == None && b.bytes == Zeros(BUFFER_SIZE)
  }

  /** How many of the first n buffers wait. */
  ghost function Waiting(states: seq<BufferState>, n: nat): (k: nat)
    requires n <= |states|
    ensures k > 0 <==> exists i | 0 <= i < n :: states[i] == NeedsProcessing
  {
    if n == 0 then 0 else Waiting(states, n - 1) + (if states[n - 1] == NeedsProcessing then 1 else 0)
  }

  lemma {:induction false} WaitingAfter(states: seq<BufferState>, i: nat, state: BufferState, n: nat)
    requires i < |states| && n <= |states| && state != NeedsProcessing
    ensures Waiting(states[i := state], n) == Waiting(states, n) - (if i < n && states[i] == NeedsProcessing then 1 else 0)
  {
    if n > 0 {
      WaitingAfter(states, i, state, n - 1);
    }
  }

  const ROUND := 2 * BUFFER_SIZE + 50

  /** A bound on the steps the task still needs to empty its buffers when no interrupt comes. */
  ghost function Work(place: Place, states: seq<BufferState>): (w: int) {
    Waiting(states, |states|) * ROUND +
    match place
    case Scan(i) => (if exists j | i <= j < |states| :: states[j] == NeedsProcessing then 0 else NUM_BUFFERS) + NUM_BUFFERS - i
    case Claim(_) => 0
    case Call(_) => ROUND - 1
    case Read(_, length, got) => length - |got| + BUFFER_SIZE + 30
    case Clear(_, done) => BUFFER_SIZE - done + 20
    case Release(_) => 18
  }

  lemma WorkClaim(states: seq<BufferState>, i: nat)
    requires i < |states| && states[i] == NeedsProcessing
    ensures Work(Call(i), states[i := CurrentlyProcessing]) < Work(Claim(i), states)
  {
    WaitingAfter(states, i, CurrentlyProcessing, |states|);
  }

  lemma WorkRelease(states: seq<BufferState>, i: nat)
    requires |states| == NUM_BUFFERS && i < |states| && states[i] == CurrentlyProcessing
    ensures Work(Scan(0), states[i := Empty]) < Work(Release(i), states)
  {
    WaitingAfter(states, i, Empty, |states|);
  }

  lemma WorkLook(states: seq<BufferState>, i: nat, j: nat)
    requires |states| == NUM_BUFFERS && i < |states| && j < |states| && states[j] == NeedsProcessing
    ensures states[i] == NeedsProcessing ==> Work(Claim(i), states) < Work(Scan(i), states)
    ensures states[i] != NeedsProcessing ==>
              Work(Scan(if i + 1 < NUM_BUFFERS then i + 1 else 0), states) < Work(Scan(i), states)
  {
  }

  // ----- interrupts and steps without the buffers' bytes

  /** Where everything stands; what a buffer holds is named by the packet's place among the accepted ones. */
  datatype Moment = Moment(place: Place, states: seq<BufferState>, accepted: seq<Packet>, delivered: seq<Delivery>, held: seq<Option<nat>>) {
    predicate Fine() {
      |states| == |held| == NUM_BUFFERS && place.i < NUM_BUFFERS
      && forall i | 0 <= i < |held| && held[i].Some? :: held[i].value < |accepted|
    }

    /** The packet in the buffer that the task works on. */
    function InWork(): Packet
      requires Fine()
    {
      if held[place.i].Some? then accepted[held[place.i].value] else []
    }
  }

  const START := Moment(Scan(0), seq(NUM_BUFFERS, i => Empty), [], [], seq(NUM_BUFFERS, i => None))

  function FirstEmptyOf(states: seq<BufferState>): (i: nat)
    ensures i <= |states| && (i < |states| ==> states[i] == Empty) && forall j | 0 <= j < i :: states[j] != Empty
  {
    if states == [] || states[0] == Empty then 0 else 1 + FirstEmptyOf(states[1..])
  }

  lemma FirstEmptyIs(states: seq<BufferState>, i: nat)
    requires i <= |states| && (i < |states| ==> states[i] == Empty) && forall j | 0 <= j < i :: states[j] != Empty
    ensures FirstEmptyOf(states) == i
  {
  }

  /** An interrupt: into the first empty buffer, dropped when there is none, and a failure for a packet that is empty or, where there
      is a buffer for it, too long. */
  function Arrived(m: Moment, packet: Packet): Option<Moment>
    requires m.Fine()
  {
    var i := FirstEmptyOf(m.states);
    if packet == [] then None
    else if i == NUM_BUFFERS then Some(m)
    else if |packet| > BUFFER_SIZE then None
    else Some(m.(states := m.states[i := NeedsProcessing], accepted := m.accepted + [packet], held := m.held[i := Some(|m.accepted|)]))
  }

  /** A step of the task. */
  function Stepped(m: Moment): Moment
    requires m.Fine()
  {
    match m.place
    case Scan(i) => m.(place := if m.states[i] == NeedsProcessing then Claim(i) else Scan(if i + 1 < NUM_BUFFERS then i + 1 else 0))
    case Claim(i) => m.(place := Call(i), states := m.states[i := CurrentlyProcessing])
    case Call(i) => m.(place := Read(i, |m.InWork()|, []))
    case Read(i, length, got) =>
      if |got| < length && |got| < |m.InWork()| then m.(place := Read(i, length, got + [m.InWork()[|got|]]))
      else if m.held[i].Some? then m.(place := Clear(i, 0), delivered := m.delivered + [Delivery(m.held[i].value, got)], held := m.held[i := None])
      else m
    case Clear(i, done) => m.(place := if done < BUFFER_SIZE then Clear(i, done + 1) else Release(i))
    case Release(i) => m.(place := Scan(0), states := m.states[i := Empty])
  }

  class Worker {
    const buffers: seq<Buffer>
    var place: Place
    ghost var accepted: seq<Packet>
    ghost var delivered: seq<Delivery>
    /** The accepted packet that is in each buffer and not delivered yet. */
    ghost var held: seq<Option<nat>>

    ghost predicate Valid()
      reads this, buffers
    {
      && |buffers| == |held| == NUM_BUFFERS
      && (forall i, j | 0 <= i < j < NUM_BUFFERS :: buffers[i] != buffers[j])
      && Accounted(accepted, delivered, held)
      && place.i < NUM_BUFFERS && AtPlace(place, Contents(place.i), held[place.i])
      && forall i | 0 <= i < NUM_BUFFERS :: Sound(Contents(i), held[i], accepted, Busy(place, i))
    }

    ghost function Contents(i: nat): BufferValue
      requires i < |buffers|
      reads this, buffers
    {
      BufferValue(buffers[i].bytes, buffers[i].length, buffers[i].state)
    }

    ghost function States(): (r: seq<BufferState>)
      reads this, buffers
      ensures |r| == |buffers|
    {
      seq(|buffers|, i requires 0 <= i < |buffers| reads this, buffers => buffers[i].state)
    }

    ghost function Now(): Moment
      reads this, buffers
    {
      Moment(place, States(), accepted, delivered, held)
    }

    lemma NowFine()
      requires Valid()
      ensures Now().Fine()
      ensures held[place.i].Some? ==> Now().InWork() == buffers[place.i].bytes[..buffers[place.i].length] && |Now().InWork()| == buffers[place.i].length
    {
      hide Accounted, AtPlace;
      forall i | 0 <= i < NUM_BUFFERS && held[i].Some?
        ensures held[i].value < |accepted|
      {
        assert Sound(Contents(i), held[i], accepted, Busy(place, i));
      }
      assert Sound(Contents(place.i), held[place.i], accepted, Busy(place, place.i));
    }

    /** Nothing waits and nothing is in work. */
    predicate Idle()
      reads this, buffers
    {
      place.Scan? && forall i | 0 <= i < |buffers| :: buffers[i].state == Empty
    }

    /** nethandler_create. */
    constructor ()
      ensures Valid() && fresh(buffers) && Now() == START
    {
      var all: seq<Buffer> := [];
      var i := 0;
      while i < NUM_BUFFERS
        invariant i == |all| <= NUM_BUFFERS && (forall j | 0 <= j < i :: fresh(all[j]))
        invariant forall j, k | 0 <= j < k < i :: all[j] != all[k]
        invariant forall j | 0 <= j < i :: all[j].bytes == Zeros(BUFFER_SIZE) && all[j].state == Empty
      {
        var b := new Buffer();
        all := all + [b];
        i := i + 1;
      }
      buffers, place := all, Scan(0);
      accepted, delivered, held := [], [], seq(NUM_BUFFERS, i => None);
    }

    /** The search for a buffer. */
    method FirstEmpty() returns (i: nat)
      requires |buffers| == NUM_BUFFERS
      ensures i <= NUM_BUFFERS && (forall j | 0 <= j < i :: buffers[j].state != Empty)
      ensures i < NUM_BUFFERS ==> buffers[i].state == Empty
    {
      i := 0;
      while i < NUM_BUFFERS && buffers[i].state != Empty
        invariant i <= NUM_BUFFERS && forall j | 0 <= j < i :: buffers[j].state != Empty
      {
        i := i + 1;
      }
    }

    /** nethandler_add_packet, in the interrupt: into the first empty buffer, or dropped. False for an empty packet, which fails
        an assertion, and for one that is copied past the end of its buffer; that takes an empty buffer to copy it to. */
    method AddPacket(data: Packet) returns (ok: bool)
      requires Valid()
      modifies this`accepted, this`held, buffers
      ensures old(Now()).Fine() && (ok <==> Arrived(old(Now()), data).Some?)
      ensures ok ==> Arrived(old(Now()), data) == Some(Now())
      ensures ok <==> 0 < |data| && (|data| <= BUFFER_SIZE || !old(HasEmpty()))
      ensures Valid() && accepted == if ok && old(HasEmpty()) then old(accepted) + [data] else old(accepted)
      ensures forall b | b in buffers && old(b.state) != Empty :: b.bytes == old(b.bytes) && b.length == old(b.length) && b.state == old(b.state)
      ensures !ok ==> held == old(held) && forall b | b in buffers :: b.bytes == old(b.bytes) && b.length == old(b.length) && b.state == old(b.state)
    {
      hide Accounted;
      NowFine();
      if data == [] {
        return false;
      }
      var i := FirstEmpty();
      FirstEmptyIs(States(), i);
      if i == NUM_BUFFERS {
        return true;
      }
      if |data| > BUFFER_SIZE {
        return false;
      }
      Fill(i, data);
      ok := true;
    }

    /** The packet goes into an empty buffer. */
    method Fill(i: nat, data: Packet)
      requires Valid() && i < NUM_BUFFERS && buffers[i].state == Empty && 0 < |data| <= BUFFER_SIZE
      modifies this`accepted, this`held, buffers[i]
      ensures Valid() && accepted == old(accepted) + [data] && held == old(held)[i := Some(|old(accepted)|)]
      ensures States() == old(States())[i := NeedsProcessing]
    {
      hide Accounted;
      var buffer := buffers[i];
      ghost var states := States();
      assert Sound(Contents(i), held[i], accepted, Busy(place, i));
      AcceptedMore(accepted, delivered, held, data, i);
      buffer.bytes := data + buffer.bytes[|data|..];
      buffer.length := |data|;
      buffer.state := NeedsProcessing;
      accepted := accepted + [data];
      held := held[i := Some(|accepted| - 1)];
      assert States() == states[i := NeedsProcessing];
    }

    ghost predicate HasEmpty()
      reads this, buffers
    {
      exists i | 0 <= i < |buffers| :: buffers[i].state == Empty
    }

    /** The search: look at one buffer, or take the one found. A task that found nothing sleeps and starts again. */
    method Look()
      requires Valid() && (place.Scan? || place.Claim?)
      modifies this`place, buffers
      ensures Valid() && (old(Idle()) || Work(place, States()) < old(Work(place, States())))
      ensures old(Now()).Fine() && Now() == Stepped(old(Now()))
      ensures forall i | 0 <= i < NUM_BUFFERS && held[i].Some? :: buffers[i].bytes == old(buffers[i].bytes)
    {
      hide Accounted, Work;
      NowFine();
      var i := place.i;
      var b := buffers[i];
      assert Sound(Contents(i), held[i], accepted, Busy(place, i));
      ghost var states := States();
      if place.Claim? {
        assert place == Claim(i);
        WorkClaim(states, i);
        b.state := CurrentlyProcessing;
        place := Call(i);
        assert States() == states[i := CurrentlyProcessing];
      } else if b.state == NeedsProcessing {
        assert place == Scan(i);
        WorkLook(states, i, i);
        place := Claim(i);
        assert States() == states;
      } else {
        if !Idle() {
          ghost var j :| 0 <= j < NUM_BUFFERS && buffers[j].state != Empty;
          assert Sound(Contents(j), held[j], accepted, Busy(place, j));
          assert place == Scan(i);
          WorkLook(states, i, j);
        }
        place := Scan(if i + 1 < NUM_BUFFERS then i + 1 else 0);
        assert States() == states;
      }
    }

    /** The worker's function reads the packet; when it returns, the packet is delivered. */
    method Process()
      requires Valid() && (place.Call? || place.Read?)
      modifies this`place, this`delivered, this`held
      ensures Valid() && old(delivered) <= delivered && Work(place, States()) < old(Work(place, States()))
      ensures old(Now()).Fine() && Now() == Stepped(old(Now()))
    {
      NowFine();
      var i := place.i;
      var b := buffers[i];
      assert Sound(Contents(i), held[i], accepted, Busy(place, i));
      ghost var states := States();
      if place.Call? {
        hide Accounted;
        place := Read(i, b.length, []);
      } else if |place.got| < place.length {
        hide Accounted;
        place := Read(i, place.length, place.got + [b.bytes[|place.got|]]);
      } else {
        ghost var id := held[i].value;
        DeliveredMore(accepted, delivered, held, i, id);
        hide Accounted;
        assert place.got == accepted[id];
        delivered := delivered + [Delivery(id, place.got)];
        held := held[i := None];
        place := Clear(i, 0);
      }
      assert States() == states;
    }

    /** The memset over the whole buffer, and the buffer's return. */
    method Finish()
      requires Valid() && (place.Clear? || place.Release?)
      modifies this`place, buffers
      ensures Valid() && (old(Idle()) || Work(place, States()) < old(Work(place, States())))
      ensures old(Now()).Fine() && Now() == Stepped(old(Now()))
      ensures forall i | 0 <= i < NUM_BUFFERS && held[i].Some? :: buffers[i].bytes == old(buffers[i].bytes)
    {
      hide Accounted, Holds;
      NowFine();
      var i := place.i;
      var b := buffers[i];
      assert Sound(Contents(i), held[i], accepted, Busy(place, i));
      ghost var states := States();
      if place.Release? {
        assert place == Release(i);
        WorkRelease(states, i);
        b.state := Empty;
        place := Scan(0);
        assert States() == states[i := Empty];
      } else if place.done < BUFFER_SIZE {
        b.bytes := b.bytes[place.done := 0];
        place := Clear(i, place.done + 1);
        assert States() == states;
      } else {
        place := Release(i);
        assert States() == states;
      }
    }

    /** One step of nethandler_task. */
    method TaskStep()
      requires Valid()
      modifies this`place, this`delivered, this`held, buffers
      ensures Valid() && old(delivered) <= delivered && (old(Idle()) || Work(place, States()) < old(Work(place, States())))
      ensures old(Now()).Fine() && Now() == Stepped(old(Now()))
      ensures forall i | 0 <= i < NUM_BUFFERS && held[i].Some? :: buffers[i].bytes == old(buffers[i].bytes)
    {
      if place.Scan? || place.Claim? {
        Look();
      } else if place.Call? || place.Read? {
        Process();
      } else {
        Finish();
      }
    }
  }

  // ----- runs

  /** What happens next: an interrupt with a packet, or a step of the task. */
  datatype Event = Arrival(packet: Packet) | TaskTurn

  /** Events one after another, up to one that fails. */
  ghost function Outcome(events: seq<Event>, m: Moment): Option<Moment>
    requires m.Fine()
    ensures Outcome(events, m).Some? ==> Outcome(events, m).value.Fine()
  {
    if events == [] then Some(m)
    else match Outcome(events[..|events| - 1], m)
      case None => None
      case Some(n) =>
        match events[|events| - 1]
        case Arrival(packet) => Arrived(n, packet)
        case TaskTurn => Some(Stepped(n))
  }

  /** In every interleaving, what happens is what happens without the buffers' bytes: the packets accepted are those that find an empty
      buffer. Each accepted packet is delivered once and unchanged, or still in its buffer. A run fails exactly at a packet that is
      empty or longer than the buffer it finds. */
  method Run(events: seq<Event>) returns (w: Worker, ok: bool)
    ensures START.Fine() && (ok <==> Outcome(events, START).Some?)
    ensures fresh(w) && fresh(w.buffers) && w.Valid() && (ok ==> Outcome(events, START) == Some(w.Now()))
    ensures forall id | 0 <= id < |w.accepted| :: Times(w.delivered, id) + Copies(w.held, id) == 1
    ensures forall d | d in w.delivered :: d.id < |w.accepted| && d.packet == w.accepted[d.id]
  {
    hide Worker.Valid, Worker.Now, Stepped, Arrived;
    w := new Worker();
    ok := true;
    assert events[..0] == [];
    w.NowFine();
    var k := 0;
    while k < |events|
      invariant k <= |events| && w.Valid() && fresh(w) && fresh(w.buffers) && ok && Outcome(events[..k], START) == Some(w.Now())
    {
      assert events[..k + 1][..k] == events[..k];
      match events[k] {
        case Arrival(packet) => ok := w.AddPacket(packet);
        case TaskTurn => w.TaskStep();
      }
      if !ok {
        FailedFor(events, START, k + 1);
        EachOnce(w);
        return;
      }
      k := k + 1;
    }
    assert events[..k] == events;
    EachOnce(w);
  }

  lemma {:induction false} FailedFor(events: seq<Event>, m: Moment, k: nat)
    requires m.Fine() && k <= |events| && Outcome(events[..k], m).None?
    ensures Outcome(events, m).None?
  {
    hide Stepped, Arrived;
    if k == |events| {
      assert events[..k] == events;
    } else {
      var front := events[..|events| - 1];
      assert front[..k] == events[..k];
      FailedFor(front, m, k);
    }
  }

  /** Once the interrupts pause, the task empties the buffers in a bounded number of steps, and every accepted packet was delivered. */
  method Drain(w: Worker) returns (steps: nat)
    requires w.Valid()
    modifies w`place, w`delivered, w`held, w.buffers
    ensures w.Valid() && w.accepted == old(w.accepted) && old(w.delivered) <= w.delivered
    ensures steps <= old(Work(w.place, w.States())) <= NUM_BUFFERS * ROUND + ROUND
    ensures forall id | 0 <= id < |w.accepted| :: Times(w.delivered, id) == 1
  {
    hide Worker.Valid, Work;
    WorkLeft(w);
    steps := 0;
    while !w.Idle()
      invariant w.Valid() && old(w.delivered) <= w.delivered
      invariant steps + Work(w.place, w.States()) <= old(Work(w.place, w.States()))
      decreases Work(w.place, w.States())
    {
      WorkLeft(w);
      w.TaskStep();
      steps := steps + 1;
    }
    EachOnce(w);
    NoneHeld(w);
    WorkLeft(w);
  }

  /** How often a packet was delivered, and how many buffers hold it. */
  ghost function Times(delivered: seq<Delivery>, id: nat): nat {
    if delivered == [] then 0
    else Times(delivered[..|delivered| - 1], id) + (if delivered[|delivered| - 1].id == id then 1 else 0)
  }

  ghost function Copies(held: seq<Option<nat>>, id: nat): nat {
    if held == [] then 0 else Copies(held[..|held| - 1], id) + (if held[|held| - 1] == Some(id) then 1 else 0)
  }

  /** Every accepted packet is in one buffer or was delivered once, as it was accepted. */
  ghost predicate Accounted(accepted: seq<Packet>, delivered: seq<Delivery>, held: seq<Option<nat>>) {
    && (forall j | 0 <= j < |delivered| :: delivered[j].id < |accepted| && delivered[j].packet == accepted[delivered[j].id])
    && (forall j, k | 0 <= j < k < |delivered| :: delivered[j].id != delivered[k].id)
    && (forall i, k | 0 <= i < |held| && held[i].Some? && 0 <= k < |delivered| :: delivered[k].id != held[i].value)
    && (forall i | 0 <= i < |held| && held[i].Some? :: held[i].value < |accepted|)
    && (forall i, k | 0 <= i < k < |held| && held[i].Some? :: held[i] != held[k])
    && (forall id | 0 <= id < |accepted| :: Delivered(delivered, id) || Some(id) in held)
  }

  ghost predicate Delivered(delivered: seq<Delivery>, id: nat) {
    exists j | 0 <= j < |delivered| :: delivered[j].id == id
  }

  lemma AcceptedMore(accepted: seq<Packet>, delivered: seq<Delivery>, held: seq<Option<nat>>, data: Packet, i: nat)
    requires Accounted(accepted, delivered, held) && i < |held| && held[i] == None
    ensures Accounted(accepted + [data], delivered, held[i := Some(|accepted|)])
  {
    var now := held[i := Some(|accepted|)];
    forall id | 0 <= id <= |accepted|
      ensures Delivered(delivered, id) || Some(id) in now
    {
      if id < |accepted| && !Delivered(delivered, id) {
        var k :| 0 <= k < |held| && held[k] == Some(id);
        assert now[k] == Some(id);
      } else {
        assert now[i] == Some(|accepted|);
      }
    }
  }

  lemma DeliveredMore(accepted: seq<Packet>, delivered: seq<Delivery>, held: seq<Option<nat>>, i: nat, id: nat)
    requires Accounted(accepted, delivered, held) && i < |held| && held[i] == Some(id)
    ensures Accounted(accepted, delivered + [Delivery(id, accepted[id])], held[i := None])
  {
    var now := held[i := None];
    var after := delivered + [Delivery(id, accepted[id])];
    forall n | 0 <= n < |accepted|
      ensures Delivered(after, n) || Some(n) in now
    {
      if n == id {
        assert after[|delivered|].id == id;
      } else if Delivered(delivered, n) {
        var j :| 0 <= j < |delivered| && delivered[j].id == n;
        assert after[j].id == n;
      } else {
        var k :| 0 <= k < |held| && held[k] == Some(n);
        assert now[k] == Some(n);
      }
    }
  }

  lemma {:induction false} TimesOnce(delivered: seq<Delivery>, id: nat)
    requires forall j, k | 0 <= j < k < |delivered| :: delivered[j].id != delivered[k].id
    ensures Times(delivered, id) == if Delivered(delivered, id) then 1 else 0
  {
    if delivered != [] {
      var less := delivered[..|delivered| - 1];
      TimesOnce(less, id);
      if Delivered(less, id) {
        var j :| 0 <= j < |less| && less[j].id == id;
        assert delivered[j].id == id;
      }
      if delivered[|less|].id == id {
        assert Delivered(delivered, id);
      }
    }
  }

  lemma {:induction false} CopiesOnce(held: seq<Option<nat>>, id: nat)
    requires forall i, k | 0 <= i < k < |held| && held[i].Some? :: held[i] != held[k]
    ensures Copies(held, id) == if Some(id) in held then 1 else 0
  {
    if held != [] {
      CopiesOnce(held[..|held| - 1], id);
    }
  }

  lemma EachOnce(w: Worker)
    requires w.Valid()
    ensures forall id | 0 <= id < |w.accepted| :: Times(w.delivered, id) + Copies(w.held, id) == 1
    ensures forall d | d in w.delivered :: d.id < |w.accepted| && d.packet == w.accepted[d.id]
  {
    forall id | 0 <= id < |w.accepted|
      ensures Times(w.delivered, id) + Copies(w.held, id) == 1
    {
      TimesOnce(w.delivered, id);
      CopiesOnce(w.held, id);
    }
  }

  lemma NoneHeld(w: Worker)
    requires w.Valid() && w.Idle()
    ensures forall id :: Copies(w.held, id) == 0
  {
    forall id
      ensures Copies(w.held, id) == 0
    {
      CopiesOnce(w.held, id);
      forall i | 0 <= i < NUM_BUFFERS
        ensures w.held[i] == None
      {
        assert Sound(w.Contents(i), w.held[i], w.accepted, Busy(w.place, i));
      }
    }
  }

  lemma {:induction false} WaitingFew(states: seq<BufferState>, n: nat)
    requires n <= |states|
    ensures Waiting(states, n) <= n
  {
    if n > 0 {
      WaitingFew(states, n - 1);
    }
  }

  lemma WorkLeft(w: Worker)
    requires w.Valid()
    ensures 0 <= Work(w.place, w.States()) <= NUM_BUFFERS * ROUND + ROUND
  {
    WaitingFew(w.States(), NUM_BUFFERS);
    assert Sound(w.Contents(w.place.i), w.held[w.place.i], w.accepted, Busy(w.place, w.place.i));
  }
}
