/**
 The sleeping barber of `pthreads/sleepbarber.c`, for any number of customers and seats.

 Each program counter value names the source line its thread is about to execute; a step of
 a thread executes that line.  `sem_wait` on a zero semaphore is a step that is not enabled.
 */
module Barber {

  datatype BarberPC =
    | WaitCus     // line 54: sem_wait(&cussem)
    | WaitSea     // line 55: sem_wait(&seasem)
    | FreeSeat    // line 56: freeseats++
    | PostBar     // line 57: sem_post(&barsem)
    | PostSea     // line 58: sem_post(&seasem)

  datatype CustomerPC =
    | Arrive      // line 68: sem_wait(&seasem)
    | Check       // line 69: freeseats > 0 ?
    | Sit         // line 70: freeseats--
    | PostCus     // line 71: sem_post(&cussem)
    | Release     // line 72: sem_post(&seasem)
    | WaitBar     // line 73: sem_wait(&barsem)
    | Served      // exited through line 73
    | Leave       // line 77: sem_post(&seasem)
    | TurnedAway  // exited through line 77

  datatype State = State(freeseats: int, barsem: nat, cussem: nat, seasem: nat, barber: BarberPC,
                         customers: seq<CustomerPC>)

  function Initial(n: nat, seats: nat): State {
    State(seats, 0, 0, 1, WaitCus, seq(n, _ => Arrive))
  }

  // ----- the steps

  /** Thread 0 is the barber, thread `i + 1` is customer `i`. */
  predicate Enabled(s: State, id: nat) {
    if id == 0 then
      match s.barber
      case WaitCus => s.cussem > 0
      case WaitSea => s.seasem > 0
      case _ => true
    else
      id <= |s.customers|
      && match s.customers[id - 1]
         case Arrive => s.seasem > 0
         case WaitBar => s.barsem > 0
         case Served => false
         case TurnedAway => false
         case _ => true
  }

  function Step(s: State, id: nat): State
    requires Enabled(s, id)
  {
    if id == 0 then BarberStep(s) else CustomerStep(s, id - 1)
  }

  function BarberStep(s: State): State
    requires Enabled(s, 0)
  {
    match s.barber
    case WaitCus => s.(cussem := s.cussem - 1, barber := WaitSea)
    case WaitSea => s.(seasem := s.seasem - 1, barber := FreeSeat)
    case FreeSeat => s.(freeseats := s.freeseats + 1, barber := PostBar)
    case PostBar => s.(barsem := s.barsem + 1, barber := PostSea)
    case PostSea => s.(seasem := s.seasem + 1, barber := WaitCus)
  }

  function CustomerStep(s: State, i: nat): State
    requires Enabled(s, i + 1)
  {
    match s.customers[i]
    case Arrive => Move(s, i, Check).(seasem := s.seasem - 1)
    case Check => Move(s, i, if s.freeseats > 0 then Sit else Leave)
    case Sit => Move(s, i, PostCus).(freeseats := s.freeseats - 1)
    case PostCus => Move(s, i, Release).(cussem := s.cussem + 1)
    case Release => Move(s, i, WaitBar).(seasem := s.seasem + 1)
    case WaitBar => Move(s, i, Served).(barsem := s.barsem - 1)
    case Leave => Move(s, i, TurnedAway).(seasem := s.seasem + 1)
    case _ => s
  }

  function Move(s: State, i: nat, pc: CustomerPC): State
    requires i < |s.customers|
  {
    s.(customers := s.customers[i := pc])
  }

  // ----- counting over the customers

  ghost function Total(cs: seq<CustomerPC>, w: CustomerPC -> nat): nat {
    if cs == [] then 0 else w(cs[0]) + Total(cs[1..], w)
  }

  lemma {:induction false} TotalUpdate(cs: seq<CustomerPC>, i: nat, pc: CustomerPC, w: CustomerPC -> nat)
    requires i < |cs|
    ensures Total(cs[i := pc], w) + w(cs[i]) == Total(cs, w) + w(pc)
  {
    if i > 0 {
      TotalUpdate(cs[1..], i - 1, pc, w);
      assert cs[i := pc][1..] == cs[1..][i - 1 := pc];
    }
  }

  lemma {:induction false} TotalAtMost(cs: seq<CustomerPC>, w: CustomerPC -> nat, w': CustomerPC -> nat)
    requires forall pc :: w(pc) <= w'(pc)
    ensures Total(cs, w) <= Total(cs, w')
  {
    if cs != [] {
      TotalAtMost(cs[1..], w, w');
    }
  }

  lemma {:induction false} TotalSum(cs: seq<CustomerPC>, a: CustomerPC -> nat, b: CustomerPC -> nat,
                                    c: CustomerPC -> nat)
    requires forall pc :: a(pc) + b(pc) <= c(pc)
    ensures Total(cs, a) + Total(cs, b) <= Total(cs, c)
  {
    if cs != [] {
      TotalSum(cs[1..], a, b, c);
    }
  }

  lemma {:induction false} TotalZero(cs: seq<CustomerPC>, w: CustomerPC -> nat)
    ensures Total(cs, w) == 0 <==> forall i :: 0 <= i < |cs| ==> w(cs[i]) == 0
  {
    if cs != [] {
      TotalZero(cs[1..], w);
      assert cs == [cs[0]] + cs[1..];
    }
  }

  lemma {:induction false} TotalConstant(n: nat, pc: CustomerPC, w: CustomerPC -> nat)
    ensures Total(seq(n, _ => pc), w) == n * w(pc)
  {
    if n > 0 {
      TotalConstant(n - 1, pc, w);
      assert seq(n, _ => pc)[1..] == seq(n - 1, _ => pc);
    }
  }

  /** Between `sem_wait(&seasem)` and the matching `sem_post`. */
  function InSection(pc: CustomerPC): nat {
    if pc.Check? || pc.Sit? || pc.PostCus? || pc.Release? || pc.Leave? then 1 else 0
  }

  function AboutToSit(pc: CustomerPC): nat { if pc.Sit? then 1 else 0 }

  /** Has taken a seat and not announced it yet. */
  function Unannounced(pc: CustomerPC): nat { if pc.PostCus? then 1 else 0 }

  /** Has announced itself and not been called yet. */
  function Waiting(pc: CustomerPC): nat { if pc.Release? || pc.WaitBar? then 1 else 0 }

  function TookSeat(pc: CustomerPC): nat { if pc.PostCus? || pc.Release? || pc.WaitBar? || pc.Served? then 1 else 0 }

  /** Has found no free seat and still holds `seasem`. */
  function Leaving(pc: CustomerPC): nat { if pc.Leave? then 1 else 0 }

  function Refused(pc: CustomerPC): nat { if pc.Leave? || pc.TurnedAway? then 1 else 0 }

  /** Own steps still possible, and five of the barber's for a customer not announced yet. */
  function Ahead(pc: CustomerPC): nat {
    match pc
    case Arrive => 11
    case Check => 10
    case Sit => 9
    case PostCus => 8
    case Release => 2
    case WaitBar => 1
    case Leave => 1
    case Served => 0
    case TurnedAway => 0
  }

  /** The barber holds `seasem`. */
  function BarberInSection(b: BarberPC): nat { if b.FreeSeat? || b.PostBar? || b.PostSea? then 1 else 0 }

  /** The barber has taken an announcement and not freed the seat yet. */
  function BarberBeforeSeat(b: BarberPC): nat { if b.WaitSea? || b.FreeSeat? then 1 else 0 }

  /** The barber has taken an announcement and not called the customer yet. */
  function BarberBeforeCall(b: BarberPC): nat { if b.WaitSea? || b.FreeSeat? || b.PostBar? then 1 else 0 }

  /** The barber is about to call. */
  function BarberCalling(b: BarberPC): nat { if b.PostBar? then 1 else 0 }

  // ----- the invariant

  /** Mutual exclusion: `seasem` is down exactly while one thread is in the section. */
  ghost predicate Exclusion(s: State) {
    s.seasem + Total(s.customers, InSection) + BarberInSection(s.barber) == 1
  }

  /** Every seat is free, announced, being freed, or taken and about to be announced. */
  ghost predicate SeatsBalance(s: State, seats: nat) {
    s.freeseats + s.cussem + BarberBeforeSeat(s.barber) + Total(s.customers, Unannounced) == seats
  }

  /** Every announced customer is matched by an announcement, a call, or the barber in between. */
  ghost predicate CallsBalance(s: State) {
    s.barsem + s.cussem + BarberBeforeCall(s.barber) == Total(s.customers, Waiting)
  }

  /**
   Whoever is about to sit down finds a free seat, so `freeseats` never wraps below zero, and
   the seat that the barber has freed is still free when he calls its customer.
   */
  ghost predicate SeatKept(s: State) {
    Total(s.customers, AboutToSit) + BarberCalling(s.barber) <= s.freeseats
  }

  /** Nobody is refused unless every seat has been taken. */
  ghost predicate FairRefusal(s: State, seats: nat) {
    Total(s.customers, Refused) > 0 ==> Total(s.customers, TookSeat) >= seats
  }

  /** While somebody is on the way out unserved, no seat is free. */
  ghost predicate Crowded(s: State) {
    Total(s.customers, Leaving) > 0 ==> s.freeseats == 0
  }

  ghost predicate Inv(s: State, seats: nat) {
    && Exclusion(s) && SeatsBalance(s, seats) && CallsBalance(s) && SeatKept(s)
    && FairRefusal(s, seats) && Crowded(s)
  }

  lemma InitialInv(n: nat, seats: nat)
    ensures Inv(Initial(n, seats), seats)
  {
    TotalConstant(n, Arrive, InSection);
    TotalConstant(n, Arrive, Unannounced);
    TotalConstant(n, Arrive, Waiting);
    TotalConstant(n, Arrive, AboutToSit);
    TotalConstant(n, Arrive, Refused);
    TotalConstant(n, Arrive, Leaving);
  }

  /** Every step of every thread keeps the invariant. */
  lemma StepInv(s: State, id: nat, seats: nat)
    requires Inv(s, seats) && Enabled(s, id)
    ensures Inv(Step(s, id), seats)
  {
    if id > 0 {
      CustomerInv(s, id - 1, seats);
    } else {
      TotalAtMost(s.customers, Leaving, InSection);
    }
  }

  lemma CustomerInv(s: State, i: nat, seats: nat)
    requires Inv(s, seats) && Enabled(s, i + 1)
    ensures Inv(CustomerStep(s, i), seats)
  {
    CustomerBalances(s, i, seats);
    CustomerSeatKept(s, i);
    CustomerRefusal(s, i, seats);
    CustomerCrowded(s, i);
  }

  lemma CustomerBalances(s: State, i: nat, seats: nat)
    requires Exclusion(s) && SeatsBalance(s, seats) && CallsBalance(s) && Enabled(s, i + 1)
    ensures var s' := CustomerStep(s, i); Exclusion(s') && SeatsBalance(s', seats) && CallsBalance(s')
  {
    var cs, pc := s.customers, CustomerStep(s, i).customers[i];
    TotalUpdate(cs, i, pc, InSection);
    TotalUpdate(cs, i, pc, Unannounced);
    TotalUpdate(cs, i, pc, Waiting);
  }

  lemma CustomerSeatKept(s: State, i: nat)
    requires Exclusion(s) && SeatKept(s) && Enabled(s, i + 1)
    ensures SeatKept(CustomerStep(s, i))
  {
    var cs, pc := s.customers, CustomerStep(s, i).customers[i];
    TotalUpdate(cs, i, pc, AboutToSit);
    TotalUpdate(cs, i, pc, InSection);
    TotalAtMost(cs[i := pc], AboutToSit, InSection);
  }

  lemma CustomerRefusal(s: State, i: nat, seats: nat)
    requires SeatsBalance(s, seats) && CallsBalance(s) && FairRefusal(s, seats) && Enabled(s, i + 1)
    ensures FairRefusal(CustomerStep(s, i), seats)
  {
    var cs, pc := s.customers, CustomerStep(s, i).customers[i];
    TotalUpdate(cs, i, pc, Refused);
    TotalUpdate(cs, i, pc, TookSeat);
    TotalSum(cs, Waiting, Unannounced, TookSeat);
  }

  lemma CustomerCrowded(s: State, i: nat)
    requires Exclusion(s) && SeatKept(s) && Crowded(s) && Enabled(s, i + 1)
    ensures Crowded(CustomerStep(s, i))
  {
    var cs, pc := s.customers, CustomerStep(s, i).customers[i];
    TotalUpdate(cs, i, pc, Leaving);
    TotalSum(cs, Leaving, AboutToSit, InSection);
    TotalZero(cs, AboutToSit);
  }

  // ----- termination

  ghost function Measure(s: State): nat {
    Total(s.customers, Ahead) + 5 * s.cussem
    + match s.barber
      case WaitCus => 0
      case WaitSea => 4
      case FreeSeat => 3
      case PostBar => 2
      case PostSea => 1
  }

  lemma StepProgress(s: State, id: nat)
    requires Enabled(s, id)
    ensures Measure(Step(s, id)) < Measure(s)
  {
    if id > 0 {
      TotalUpdate(s.customers, id - 1, Step(s, id).customers[id - 1], Ahead);
    }
  }

  lemma InitialMeasure(n: nat, seats: nat)
    ensures Measure(Initial(n, seats)) == 11 * n
  {
    TotalConstant(n, Arrive, Ahead);
  }

  // ----- runs

  /** `ids` is a schedule that `s` can follow. */
  ghost predicate Follows(s: State, ids: seq<nat>)
    decreases |ids|
  {
    ids == [] || (Enabled(s, ids[0]) && Follows(Step(s, ids[0]), ids[1..]))
  }

  ghost function After(s: State, ids: seq<nat>): State
    requires Follows(s, ids)
    decreases |ids|
  {
    if ids == [] then s else After(Step(s, ids[0]), ids[1..])
  }

  lemma {:induction false} RunFacts(s: State, ids: seq<nat>, seats: nat)
    requires Inv(s, seats) && Follows(s, ids)
    ensures Inv(After(s, ids), seats)
    ensures |ids| + Measure(After(s, ids)) <= Measure(s)
    ensures |After(s, ids).customers| == |s.customers|
    decreases |ids|
  {
    if ids != [] {
      StepInv(s, ids[0], seats);
      StepProgress(s, ids[0]);
      RunFacts(Step(s, ids[0]), ids[1..], seats);
    }
  }

  /** Customers who hold a seat, taken or announced, and have not been called. */
  ghost function SeatedNotCalled(s: State): int {
    Total(s.customers, Unannounced) + Total(s.customers, Waiting) - s.barsem
  }

  /**
   In every reachable state the number of free seats is in range, the customers seated but not
   called fit on the seats, and at most one thread is in the section.
   */
  lemma SeatsInRange(n: nat, seats: nat, ids: seq<nat>)
    requires Follows(Initial(n, seats), ids)
    ensures var s := After(Initial(n, seats), ids);
            && 0 <= s.freeseats <= seats
            && 0 <= SeatedNotCalled(s) <= seats
            && s.seasem <= 1 && Total(s.customers, InSection) + BarberInSection(s.barber) == 1 - s.seasem
  {
    InitialInv(n, seats);
    RunFacts(Initial(n, seats), ids, seats);
  }

  /** In every run a customer is refused only when no seat is free, and sits down only when one is. */
  lemma RefusedOnlyWhenFull(n: nat, seats: nat, ids: seq<nat>)
    requires Follows(Initial(n, seats), ids)
    ensures var s := After(Initial(n, seats), ids);
            && (forall i :: 0 <= i < |s.customers| && s.customers[i] == Leave ==> s.freeseats == 0)
            && (forall i :: 0 <= i < |s.customers| && s.customers[i] == Sit ==> s.freeseats > 0)
  {
    InitialInv(n, seats);
    RunFacts(Initial(n, seats), ids, seats);
    var s := After(Initial(n, seats), ids);
    TotalZero(s.customers, Leaving);
    TotalZero(s.customers, AboutToSit);
  }

  /** No interleaving of `n` customers and the barber takes more than `11 * n` steps. */
  lemma EveryRunIsShort(n: nat, seats: nat, ids: seq<nat>)
    requires Follows(Initial(n, seats), ids)
    ensures |ids| <= 11 * n
  {
    InitialInv(n, seats);
    InitialMeasure(n, seats);
    RunFacts(Initial(n, seats), ids, seats);
  }

  ghost predicate Stuck(s: State) {
    forall id: nat :: !Enabled(s, id)
  }

  /** The barber sleeps, everyone has left, and the semaphores are as at the start. */
  ghost predicate Closed(s: State, seats: nat) {
    && s.barber == WaitCus && s.freeseats == seats && s.cussem == 0 && s.barsem == 0 && s.seasem == 1
    && forall i :: 0 <= i < |s.customers| ==> s.customers[i] == Served || s.customers[i] == TurnedAway
  }

  /** The shop gets stuck only when it is closed, and a closed shop is stuck. */
  lemma StuckIffClosed(s: State, seats: nat)
    requires Inv(s, seats)
    ensures Stuck(s) <==> Closed(s, seats)
  {
    TotalZero(s.customers, InSection);
    TotalZero(s.customers, Waiting);
    TotalZero(s.customers, Unannounced);
    if Stuck(s) {
      assert !Enabled(s, 0);
      forall i | 0 <= i < |s.customers|
        ensures InSection(s.customers[i]) == 0
        ensures s.customers[i] == Arrive ==> s.seasem == 0
        ensures s.customers[i] == WaitBar ==> s.barsem == 0
      {
        assert !Enabled(s, i + 1);
      }
    }
  }

  /** Everyone got a seat and a haircut or was refused, and as many as there are seats got one. */
  ghost predicate EnoughServed(cs: seq<CustomerPC>, seats: nat) {
    && Total(cs, TookSeat) + Total(cs, Refused) == |cs|
    && Total(cs, TookSeat) >= if |cs| <= seats then |cs| else seats
  }

  lemma ClosedServed(s: State, seats: nat)
    requires Inv(s, seats) && Closed(s, seats)
    ensures EnoughServed(s.customers, seats)
  {
    GoneEitherWay(s.customers);
  }

  /** A run that cannot go on has lost no customer. */
  lemma NobodyLost(n: nat, seats: nat, ids: seq<nat>)
    requires Follows(Initial(n, seats), ids) && Stuck(After(Initial(n, seats), ids))
    ensures var s := After(Initial(n, seats), ids);
            Closed(s, seats) && |s.customers| == n && EnoughServed(s.customers, seats)
  {
    InitialInv(n, seats);
    RunFacts(Initial(n, seats), ids, seats);
    StuckIffClosed(After(Initial(n, seats), ids), seats);
    ClosedServed(After(Initial(n, seats), ids), seats);
  }

  lemma {:induction false} GoneEitherWay(cs: seq<CustomerPC>)
    requires forall i :: 0 <= i < |cs| ==> cs[i] == Served || cs[i] == TurnedAway
    ensures Total(cs, TookSeat) + Total(cs, Refused) == |cs|
  {
    if cs != [] {
      GoneEitherWay(cs[1..]);
    }
  }

  // ----- the program

  class Shop {
    const seats: nat
    var freeseats: int
    var barsem: nat
    var cussem: nat
    var seasem: nat
    var barber: BarberPC
    var customers: seq<CustomerPC>

    ghost function Now(): State
      reads this
    {
      State(freeseats, barsem, cussem, seasem, barber, customers)
    }

    constructor (n: nat, seats: nat)
      ensures this.seats == seats && Now() == Initial(n, seats)
      ensures freeseats == seats && barsem == cussem == 0 && seasem == 1 && barber == WaitCus
      ensures |customers| == n && forall i :: 0 <= i < n ==> customers[i] == Arrive
    {
      this.seats := seats;
      barsem, cussem, seasem, freeseats := 0, 0, 1, seats;
      barber, customers := WaitCus, seq(n, _ => Arrive);
    }

    /** Whether thread `id` can go on. */
    predicate Ready(id: nat)
      reads this
    {
      Enabled(State(freeseats, barsem, cussem, seasem, barber, customers), id)
    }

    /** The next line of `barthread`. */
    method BarberLine()
      requires Ready(0)
      modifies this
      ensures Now() == Step(old(Now()), 0)
    {
      match barber {
        case WaitCus => cussem := cussem - 1; barber := WaitSea;
        case WaitSea => seasem := seasem - 1; barber := FreeSeat;
        case FreeSeat => freeseats := freeseats + 1; barber := PostBar;
        case PostBar => barsem := barsem + 1; barber := PostSea;
        case PostSea => seasem := seasem + 1; barber := WaitCus;
      }
    }

    /** The next line of customer `i`'s `custhread`. */
    method CustomerLine(i: nat)
      requires Ready(i + 1)
      modifies this
      ensures Now() == Step(old(Now()), i + 1)
    {
      match customers[i] {
        case Arrive => seasem := seasem - 1; customers := customers[i := Check];
        case Check =>
          if freeseats > 0 {
            customers := customers[i := Sit];
          } else {
            customers := customers[i := Leave];
          }
        case Sit => freeseats := freeseats - 1; customers := customers[i := PostCus];
        case PostCus => cussem := cussem + 1; customers := customers[i := Release];
        case Release => seasem := seasem + 1; customers := customers[i := WaitBar];
        case WaitBar => barsem := barsem - 1; customers := customers[i := Served];
        case Leave => seasem := seasem + 1; customers := customers[i := TurnedAway];
      }
    }

    /** Runs the threads in any order at all until none can go on; this always ends, closed. */
    method Run()
      requires Inv(Now(), seats)
      modifies this
      ensures Inv(Now(), seats) && Closed(Now(), seats)
      ensures |customers| == old(|customers|) && EnoughServed(customers, seats)
    {
      while exists id: nat :: id <= |customers| && Ready(id)
        invariant Inv(Now(), seats) && |customers| == old(|customers|)
        decreases Measure(Now())
      {
        var id: nat :| id <= |customers| && Ready(id);
        StepInv(Now(), id, seats);
        StepProgress(Now(), id);
        if id == 0 {
          BarberLine();
        } else {
          CustomerLine(id - 1);
        }
      }
      forall id: nat
        ensures !Enabled(Now(), id)
      {
        assert id <= |customers| ==> !Ready(id);
      }
      StuckIffClosed(Now(), seats);
      ClosedServed(Now(), seats);
    }
  }

  /** `main`: whatever the scheduler does, `n` customers and the barber come to an end. */
  method Day(n: nat, seats: nat) returns (shop: Shop)
    ensures fresh(shop) && |shop.customers| == n && shop.seats == seats
    ensures Closed(shop.Now(), seats) && EnoughServed(shop.customers, seats)
  {
    shop := new Shop(n, seats);
    InitialInv(n, seats);
    shop.Run();
  }
}
