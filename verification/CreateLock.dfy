/**
 * The per-lane mutex of createRequest (_withCreateLock): a map from lane to the
 * last promise of its chain. A call arrives, enters once the promise it found has
 * resolved, and leaves by resolving its own gate and, if it is still the last of
 * its lane, deleting the map entry. Leaving is the same whether the body returned
 * or threw.
 *
 * Calls are numbered in order of arrival. The calls of all lanes interleave
 * freely between these three atomic steps.
 */
module CreateLock {
  import opened Prelude

  datatype Phase = Waiting | Inside | Left

  /** A call: its lane and the call whose promise it awaits; None is Promise.resolve(). */
  datatype Ticket = Ticket(lane: string, previous: Option<nat>, phase: Phase)

  datatype Locks = Locks(tails: map<string, nat>, tickets: seq<Ticket>)

  const START := Locks(map[], [])

  /** Has previous.then(() => gate) of ticket i resolved? */
  predicate Resolved(l: Locks, i: nat)
    requires i < |l.tickets|
    decreases i
  {
    var t := l.tickets[i];
    t.phase == Left && (t.previous.Some? && t.previous.value < i ==> Resolved(l, t.previous.value))
  }

  predicate MayEnter(l: Locks, i: nat) {
    && i < |l.tickets| && l.tickets[i].phase == Waiting
    && (l.tickets[i].previous.Some? && l.tickets[i].previous.value < i ==> Resolved(l, l.tickets[i].previous.value))
  }

  predicate MayLeave(l: Locks, i: nat) { i < |l.tickets| && l.tickets[i].phase == Inside }

  function Arrive(l: Locks, lane: string): Locks {
    var previous := if lane in l.tails then Some(l.tails[lane]) else None;
    Locks(l.tails[lane := |l.tickets|], l.tickets + [Ticket(lane, previous, Waiting)])
  }

  function Enter(l: Locks, i: nat): Locks
    requires i < |l.tickets|
  {
    l.(tickets := l.tickets[i := l.tickets[i].(phase := Inside)])
  }

  function Leave(l: Locks, i: nat): Locks
    requires i < |l.tickets|
  {
    var t := l.tickets[i];
    Locks(if t.lane in l.tails && l.tails[t.lane] == i then l.tails - {t.lane} else l.tails,
          l.tickets[i := t.(phase := Left)])
  }

  datatype Event = Arrival(lane: string) | Entry(i: nat) | Exit(i: nat)

  /** A step that is not enabled does not happen. */
  function Apply(l: Locks, ev: Event): Locks {
    match ev
    case Arrival(lane) => Arrive(l, lane)
    case Entry(i) => if MayEnter(l, i) then Enter(l, i) else l
    case Exit(i) => if MayLeave(l, i) then Leave(l, i) else l
  }

  function Run(l: Locks, evs: seq<Event>): Locks
    decreases |evs|
  {
    if evs == [] then l else Run(Apply(l, evs[0]), evs[1..])
  }

  // ---------- the invariant ----------

  predicate SameLane(l: Locks, i: nat, j: nat)
    requires i < |l.tickets| && j < |l.tickets|
  {
    l.tickets[i].lane == l.tickets[j].lane
  }

  /** Whoever got past the wait did so after everybody ahead of it had left. */
  ghost predicate InOrder(l: Locks) {
    forall i, j | 0 <= i < j < |l.tickets| ::
      SameLane(l, i, j) && l.tickets[j].phase != Waiting ==> l.tickets[i].phase == Left
  }

  /** A ticket waits for its direct predecessor; without one, everybody ahead of it has left. */
  ghost predicate Linked(l: Locks) {
    forall i, j | 0 <= j < i < |l.tickets| && SameLane(l, i, j) ::
      match l.tickets[i].previous
      case None => l.tickets[j].phase == Left
      case Some(p) => j <= p
  }

  ghost predicate LinksAreEarlier(l: Locks) {
    forall i | 0 <= i < |l.tickets| && l.tickets[i].previous.Some? ::
      l.tickets[i].previous.value < i && SameLane(l, l.tickets[i].previous.value, i)
  }

  /** A lane's entry names the last call of a busy lane; a lane without an entry is idle. */
  ghost predicate TailsCurrent(l: Locks) {
    && (forall lane | lane in l.tails ::
          && l.tails[lane] < |l.tickets| && l.tickets[l.tails[lane]].lane == lane
          && l.tickets[l.tails[lane]].phase != Left)
    && (forall i | 0 <= i < |l.tickets| ::
          if l.tickets[i].lane in l.tails then i <= l.tails[l.tickets[i].lane] else l.tickets[i].phase == Left)
  }

  ghost predicate Inv(l: Locks) {
    InOrder(l) && Linked(l) && LinksAreEarlier(l) && TailsCurrent(l)
  }

  /** The promise of a call that has left is resolved: everybody it waited for has left too. */
  lemma {:induction false} LeftIsResolved(l: Locks, i: nat)
    requires Inv(l) && i < |l.tickets|
    ensures Resolved(l, i) <==> l.tickets[i].phase == Left
    decreases i
  {
    var t := l.tickets[i];
    if t.previous.Some? {
      assert SameLane(l, t.previous.value, i);
      LeftIsResolved(l, t.previous.value);
    }
  }

  /** A waiting call may enter exactly when everybody ahead of it in its lane has left. */
  lemma EntersInTurn(l: Locks, i: nat)
    requires Inv(l) && i < |l.tickets| && l.tickets[i].phase == Waiting
    ensures MayEnter(l, i) <==> forall j | 0 <= j < i && SameLane(l, i, j) :: l.tickets[j].phase == Left
  {
    var t := l.tickets[i];
    if t.previous.Some? {
      var p := t.previous.value;
      assert SameLane(l, p, i);
      LeftIsResolved(l, p);
      if l.tickets[p].phase == Left {
        forall j | 0 <= j < i && SameLane(l, i, j)
          ensures l.tickets[j].phase == Left
        {
          assert j <= p;
          if j < p { assert SameLane(l, j, p); }
        }
      } else {
        assert SameLane(l, i, p);
      }
    }
  }

  lemma ArriveKeepsInv(l: Locks, lane: string)
    requires Inv(l)
    ensures Inv(Arrive(l, lane))
  {
    var l' := Arrive(l, lane);
    assert forall i, j | 0 <= i < |l.tickets| && 0 <= j < |l.tickets| :: SameLane(l', i, j) == SameLane(l, i, j);
    var n := |l.tickets|;
    forall j | 0 <= j < n && SameLane(l', n, j)
      ensures l'.tickets[n].previous.None? ==> l'.tickets[j].phase == Left
      ensures l'.tickets[n].previous.Some? ==> j <= l'.tickets[n].previous.value
    {
      assert l.tickets[j].lane == lane;
    }
  }

  lemma EnterKeepsInv(l: Locks, i: nat)
    requires Inv(l) && MayEnter(l, i)
    ensures Inv(Enter(l, i))
  {
    EntersInTurn(l, i);
    var l' := Enter(l, i);
    assert forall a, b | 0 <= a < |l.tickets| && 0 <= b < |l.tickets| :: SameLane(l', a, b) == SameLane(l, a, b);
    forall a, b | 0 <= a < b < |l'.tickets| && SameLane(l', a, b) && l'.tickets[b].phase != Waiting
      ensures l'.tickets[a].phase == Left
    {
      if b == i {
        assert SameLane(l, i, a);
      } else {
        assert SameLane(l, a, b) && l.tickets[b].phase != Waiting;
      }
    }
  }

  lemma LeaveKeepsTails(l: Locks, i: nat)
    requires Inv(l) && MayLeave(l, i)
    ensures TailsCurrent(Leave(l, i))
  {
    var l' := Leave(l, i);
    var lane := l.tickets[i].lane;
    forall a | 0 <= a < |l.tickets| && l.tickets[a].lane == lane
      ensures a < i ==> l.tickets[a].phase == Left
    {
      assert a < i ==> SameLane(l, a, i);
    }
    assert lane in l.tails && i <= l.tails[lane];
    hide InOrder;
    hide Linked;
    hide LinksAreEarlier;
    forall a | 0 <= a < |l'.tickets|
      ensures if l'.tickets[a].lane in l'.tails then a <= l'.tails[l'.tickets[a].lane] else l'.tickets[a].phase == Left
    {
      assert l'.tickets[a].lane == l.tickets[a].lane;
    }
  }

  lemma LeaveKeepsInv(l: Locks, i: nat)
    requires Inv(l) && MayLeave(l, i)
    ensures Inv(Leave(l, i))
  {
    LeaveKeepsTails(l, i);
    hide TailsCurrent;
    var l' := Leave(l, i);
    assert forall a, b | 0 <= a < |l.tickets| && 0 <= b < |l.tickets| :: SameLane(l', a, b) == SameLane(l, a, b);
  }

  lemma StepKeepsInv(l: Locks, ev: Event)
    requires Inv(l)
    ensures Inv(Apply(l, ev))
  {
    match ev
    case Arrival(lane) => ArriveKeepsInv(l, lane);
    case Entry(i) => if MayEnter(l, i) { EnterKeepsInv(l, i); }
    case Exit(i) => if MayLeave(l, i) { LeaveKeepsInv(l, i); }
  }

  lemma {:induction false} RunKeepsInv(l: Locks, evs: seq<Event>)
    requires Inv(l)
    ensures Inv(Run(l, evs))
    decreases |evs|
  {
    if evs != [] {
      StepKeepsInv(l, evs[0]);
      RunKeepsInv(Apply(l, evs[0]), evs[1..]);
    }
  }

  // ---------- what every interleaving guarantees ----------

  /** Two calls are never inside the same lane at once. */
  lemma MutualExclusion(evs: seq<Event>, i: nat, j: nat)
    requires i < |Run(START, evs).tickets| && j < |Run(START, evs).tickets|
    requires SameLane(Run(START, evs), i, j)
    requires Run(START, evs).tickets[i].phase == Inside && Run(START, evs).tickets[j].phase == Inside
    ensures i == j
  {
    RunKeepsInv(START, evs);
    assert SameLane(Run(START, evs), j, i);
  }

  /** Calls of a lane get in strictly in order of arrival: nobody overtakes. */
  lemma FirstComeFirstServed(evs: seq<Event>, i: nat, j: nat)
    requires i < j < |Run(START, evs).tickets| && SameLane(Run(START, evs), i, j)
    requires Run(START, evs).tickets[j].phase != Waiting
    ensures Run(START, evs).tickets[i].phase == Left
  {
    RunKeepsInv(START, evs);
  }

  /** The map has an entry for exactly the lanes in which somebody holds or waits. */
  lemma EntryExactlyWhenBusy(evs: seq<Event>, lane: string)
    ensures lane in Run(START, evs).tails
       <==> exists i: nat | i < |Run(START, evs).tickets| ::
              Run(START, evs).tickets[i].lane == lane && Run(START, evs).tickets[i].phase != Left
  {
    RunKeepsInv(START, evs);
    var l := Run(START, evs);
    if lane in l.tails {
      assert l.tickets[l.tails[lane]].lane == lane;
    }
  }

  /** A busy lane never stalls: its first remaining call is inside or may enter. */
  lemma LanesNeverStall(evs: seq<Event>, i: nat)
    requires i < |Run(START, evs).tickets| && Run(START, evs).tickets[i].phase != Left
    requires forall j | 0 <= j < i && SameLane(Run(START, evs), i, j) :: Run(START, evs).tickets[j].phase == Left
    ensures MayLeave(Run(START, evs), i) || MayEnter(Run(START, evs), i)
  {
    RunKeepsInv(START, evs);
    if Run(START, evs).tickets[i].phase == Waiting { EntersInTurn(Run(START, evs), i); }
  }

  // ---------- how long a call waits ----------

  /** The steps a call still has to make: to enter and to leave. */
  function Units(p: Phase): nat {
    match p
    case Waiting => 2
    case Inside => 1
    case Left => 0
  }

  /** The steps the first n calls still have to make in a lane. */
  function Work(ts: seq<Ticket>, lane: string, n: nat): nat
    requires n <= |ts|
  {
    if n == 0 then 0 else Work(ts, lane, n - 1) + (if ts[n - 1].lane == lane then Units(ts[n - 1].phase) else 0)
  }

  /** How many of the first n calls have not left the lane. */
  function Remaining(ts: seq<Ticket>, lane: string, n: nat): nat
    requires n <= |ts|
  {
    if n == 0 then 0
    else Remaining(ts, lane, n - 1) + (if ts[n - 1].lane == lane && ts[n - 1].phase != Left then 1 else 0)
  }

  /** The steps that must still happen before call i may enter. */
  function Ahead(l: Locks, i: nat): nat
    requires i < |l.tickets|
  {
    Work(l.tickets, l.tickets[i].lane, i)
  }

  /** The event is an entry or exit, and it happens, of a call ahead of i in its lane. */
  predicate MovesAhead(l: Locks, ev: Event, i: nat)
    requires i < |l.tickets|
  {
    match ev
    case Arrival(_) => false
    case Entry(j) => j < i && SameLane(l, j, i) && MayEnter(l, j)
    case Exit(j) => j < i && SameLane(l, j, i) && MayLeave(l, j)
  }

  lemma TicketsStay(l: Locks, ev: Event, i: nat)
    requires i < |l.tickets|
    ensures i < |Apply(l, ev).tickets| && Apply(l, ev).tickets[i].lane == l.tickets[i].lane
  {
  }

  /** How many of the events move a call ahead of i. */
  function Moves(l: Locks, evs: seq<Event>, i: nat): nat
    requires i < |l.tickets|
    decreases |evs|
  {
    if evs == [] then 0
    else
      TicketsStay(l, evs[0], i);
      (if MovesAhead(l, evs[0], i) then 1 else 0) + Moves(Apply(l, evs[0]), evs[1..], i)
  }

  lemma {:induction false} WorkUpdate(ts: seq<Ticket>, k: nat, p: Phase, lane: string, n: nat)
    requires k < |ts| && n <= |ts|
    ensures Work(ts[k := ts[k].(phase := p)], lane, n)
         == Work(ts, lane, n) + (if k < n && ts[k].lane == lane then Units(p) - Units(ts[k].phase) else 0)
  {
    if n > 0 { WorkUpdate(ts, k, p, lane, n - 1); }
  }

  lemma {:induction false} WorkPrefix(ts: seq<Ticket>, t: Ticket, lane: string, n: nat)
    requires n <= |ts|
    ensures Work(ts + [t], lane, n) == Work(ts, lane, n)
  {
    if n > 0 { WorkPrefix(ts, t, lane, n - 1); }
  }

  lemma {:induction false} WorkIsZero(ts: seq<Ticket>, lane: string, n: nat)
    requires n <= |ts|
    ensures Work(ts, lane, n) == 0 <==> forall j | 0 <= j < n && ts[j].lane == lane :: ts[j].phase == Left
  {
    if n > 0 { WorkIsZero(ts, lane, n - 1); }
  }

  lemma {:induction false} WorkIsBounded(ts: seq<Ticket>, lane: string, n: nat)
    requires n <= |ts|
    ensures Work(ts, lane, n) <= 2 * Remaining(ts, lane, n)
  {
    if n > 0 { WorkIsBounded(ts, lane, n - 1); }
  }

  /** Each move of a call ahead takes one step off what i waits for; nothing else changes it, nor do arrivals. */
  lemma StepWorks(l: Locks, ev: Event, i: nat)
    requires i < |l.tickets|
    ensures i < |Apply(l, ev).tickets|
    ensures Ahead(l, i) == Ahead(Apply(l, ev), i) + (if MovesAhead(l, ev, i) then 1 else 0)
  {
    hide Resolved;
    var ts, lane := l.tickets, l.tickets[i].lane;
    match ev
    case Arrival(other) =>
      var l' := Arrive(l, other);
      WorkPrefix(ts, l'.tickets[|ts|], lane, i);
      assert l'.tickets == ts + [l'.tickets[|ts|]];
    case Entry(j) => if j < |ts| { WorkUpdate(ts, j, Inside, lane, i); }
    case Exit(j) => if j < |ts| { WorkUpdate(ts, j, Left, lane, i); }
  }

  lemma {:induction false} RunWorks(l: Locks, evs: seq<Event>, i: nat)
    requires i < |l.tickets|
    ensures i < |Run(l, evs).tickets|
    ensures Ahead(l, i) == Ahead(Run(l, evs), i) + Moves(l, evs, i)
    decreases |evs|
  {
    if evs != [] {
      hide Apply;
      hide MovesAhead;
      hide Ahead;
      StepWorks(l, evs[0], i);
      RunWorks(Apply(l, evs[0]), evs[1..], i);
    }
  }

  /** As long as there is work ahead of a call, some call ahead of it can move. */
  lemma {:induction false} SomebodyMoves(l: Locks, i: nat) returns (j: nat)
    requires Inv(l) && i < |l.tickets| && Ahead(l, i) > 0
    ensures j < i && SameLane(l, j, i) && (MayEnter(l, j) || MayLeave(l, j))
    decreases i
  {
    WorkIsZero(l.tickets, l.tickets[i].lane, i);
    j :| 0 <= j < i && l.tickets[j].lane == l.tickets[i].lane && l.tickets[j].phase != Left;
    WorkIsZero(l.tickets, l.tickets[j].lane, j);
    if Ahead(l, j) > 0 {
      j := SomebodyMoves(l, j);
    } else if l.tickets[j].phase == Waiting {
      EntersInTurn(l, j);
    }
  }

  lemma EntersWithoutWorkAhead(l: Locks, i: nat)
    requires Inv(l) && i < |l.tickets| && l.tickets[i].phase == Waiting
    ensures MayEnter(l, i) <==> Ahead(l, i) == 0
  {
    EntersInTurn(l, i);
    WorkIsZero(l.tickets, l.tickets[i].lane, i);
    assert forall j | 0 <= j < i :: SameLane(l, i, j) <==> l.tickets[j].lane == l.tickets[i].lane;
  }

  /**
   * Waiting is bounded: from any reachable state a call may enter as soon as the calls
   * ahead of it have made the steps they have left, at most two each, whatever else
   * happens meanwhile; until then one of them can always make its next step.
   */
  lemma WaitIsBounded(evs: seq<Event>, i: nat, more: seq<Event>)
    requires i < |Run(START, evs).tickets|
    ensures var l, l' := Run(START, evs), Run(Run(START, evs), more);
      && i < |l'.tickets|
      && Moves(l, more, i) <= Ahead(l, i) <= 2 * Remaining(l.tickets, l.tickets[i].lane, i)
      && (l'.tickets[i].phase == Waiting ==> (MayEnter(l', i) <==> Moves(l, more, i) == Ahead(l, i)))
      && (Moves(l, more, i) < Ahead(l, i) ==> exists ev :: MovesAhead(l', ev, i))
  {
    hide Inv;
    var l, l' := Run(START, evs), Run(Run(START, evs), more);
    StartIsValid();
    RunKeepsInv(START, evs);
    RunKeepsInv(l, more);
    RunWorks(l, more, i);
    WorkIsBounded(l.tickets, l.tickets[i].lane, i);
    if l'.tickets[i].phase == Waiting { EntersWithoutWorkAhead(l', i); }
    if Ahead(l', i) > 0 {
      var j := SomebodyMoves(l', i);
      assert MovesAhead(l', Entry(j), i) || MovesAhead(l', Exit(j), i);
    }
  }

  lemma StartIsValid()
    ensures Inv(START)
  {
  }

  // ---------- the service's map, updated in place ----------

  class CreateLanes {
    var createLocks: map<string, nat>
    var tickets: seq<Ticket>

    ghost function View(): Locks
      reads this
    {
      Locks(createLocks, tickets)
    }

    constructor ()
      ensures View() == START
    {
      createLocks, tickets := map[], [];
    }

    /** The synchronous head of _withCreateLock, up to its await. */
    method Join(lane: string) returns (ticket: nat)
      modifies this
      ensures View() == Arrive(old(View()), lane) && ticket == |old(tickets)|
    {
      var previous := None;
      if lane in createLocks { previous := Some(createLocks[lane]); }
      ticket := |tickets|;
      tickets := tickets + [Ticket(lane, previous, Waiting)];
      createLocks := createLocks[lane := ticket];
    }

    /** The await itself: resume the call if the promise it found has resolved. */
    method Proceed(ticket: nat) returns (entered: bool)
      modifies this
      ensures View() == Apply(old(View()), Entry(ticket))
      ensures entered == MayEnter(old(View()), ticket)
    {
      entered := MayEnter(Locks(createLocks, tickets), ticket);
      if entered { tickets := tickets[ticket := tickets[ticket].(phase := Inside)]; }
    }

    /** The first call of the ticket's lane that has not left; it is ahead of the ticket. */
    method FirstRemaining(ticket: nat) returns (j: nat)
      requires ticket < |tickets| && Ahead(View(), ticket) > 0
      ensures j < ticket && SameLane(View(), j, ticket) && tickets[j].phase != Left && Ahead(View(), j) == 0
    {
      WorkIsZero(tickets, tickets[ticket].lane, ticket);
      j := 0;
      while tickets[j].lane != tickets[ticket].lane || tickets[j].phase == Left
        invariant 0 <= j < ticket
        invariant forall k | 0 <= k < j && tickets[k].lane == tickets[ticket].lane :: tickets[k].phase == Left
        decreases ticket - j
      {
        j := j + 1;
        if j == ticket { assert false; }
      }
      WorkIsZero(tickets, tickets[j].lane, j);
    }

    /** Steps of other calls than the given one. */
    method Others(own: Option<nat>, others: seq<Event>)
      requires Inv(View())
      modifies this
      ensures Inv(View()) && |tickets| >= |old(tickets)|
      ensures own.Some? && own.value < |old(tickets)| ==> tickets[own.value] == old(tickets[own.value])
    {
      hide Inv;
      hide Resolved;
      var i := 0;
      while i < |others|
        invariant 0 <= i <= |others|
        invariant Inv(View()) && |tickets| >= |old(tickets)|
        invariant own.Some? && own.value < |old(tickets)| ==> tickets[own.value] == old(tickets[own.value])
      {
        var ev := others[i];
        StepKeepsInv(View(), ev);
        if !((ev.Entry? || ev.Exit?) && Some(ev.i) == own) {
          var after := Apply(Locks(createLocks, tickets), ev);
          createLocks, tickets := after.tails, after.tickets;
        }
        i := i + 1;
      }
    }

    /** One step of the first remaining call ahead, which its own caller would make. */
    method LetOneMove(ticket: nat)
      requires Inv(View()) && ticket < |tickets| && Ahead(View(), ticket) > 0
      modifies this
      ensures Inv(View()) && |tickets| == |old(tickets)| && tickets[ticket] == old(tickets[ticket])
      ensures Ahead(View(), ticket) == old(Ahead(View(), ticket)) - 1
    {
      hide Inv;
      hide Ahead;
      var j := FirstRemaining(ticket);
      ghost var before := View();
      if tickets[j].phase == Waiting {
        EntersWithoutWorkAhead(before, j);
        StepWorks(before, Entry(j), ticket);
        StepKeepsInv(before, Entry(j));
        var moved := Proceed(j);
      } else {
        StepWorks(before, Exit(j), ticket);
        StepKeepsInv(before, Exit(j));
        Release(j);
      }
    }

    /**
     * The whole wait of a call: other calls do what they like, the calls ahead of it
     * finish, and it gets in. That the calls ahead go on making their next steps is an
     * assumption about the runtime, carried out here by the loop; that some step is
     * always there to be made, and how many it takes, is WaitIsBounded.
     */
    method AwaitTurn(ticket: nat, others: seq<Event>)
      requires Inv(View()) && ticket < |tickets| && tickets[ticket].phase == Waiting
      modifies this
      ensures Inv(View()) && |tickets| >= |old(tickets)|
      ensures tickets[ticket] == old(tickets[ticket]).(phase := Inside)
    {
      hide Inv;
      hide Ahead;
      hide Resolved;
      Others(Some(ticket), others);
      StepKeepsInv(View(), Entry(ticket));
      ghost var met := View();
      var entered := Proceed(ticket);
      while !entered
        invariant Inv(View()) && |tickets| >= |old(tickets)| && ticket < |tickets|
        invariant tickets[ticket] == old(tickets[ticket]).(phase := if entered then Inside else Waiting)
        invariant !entered ==> !MayEnter(View(), ticket)
        decreases if entered then 0 else 1 + Ahead(View(), ticket)
      {
        EntersWithoutWorkAhead(View(), ticket);
        LetOneMove(ticket);
        StepKeepsInv(View(), Entry(ticket));
        entered := Proceed(ticket);
      }
    }

    /** The finally block. */
    method Release(ticket: nat)
      requires MayLeave(View(), ticket)
      modifies this
      ensures View() == Leave(old(View()), ticket)
    {
      var lane := tickets[ticket].lane;
      tickets := tickets[ticket := tickets[ticket].(phase := Left)];
      if lane in createLocks && createLocks[lane] == ticket {
        createLocks := createLocks - {lane};
      }
    }
  }
}
