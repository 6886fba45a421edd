/** Opens and closes over whole runs: what is outstanding is what was opened less what was closed. */
module UnloadingBalance {
  import opened Reaper
  import opened Unloading
  import opened UnloadingProof
  import opened UnloadingRuns

  /** How many opens of the address the event counts. */
  function Opens(s: State, e: Event, a: nat): nat
    requires e.Load? ==> e.images != []
  {
    match e
    case Load(images) => if !images[0].image.inDyldCache && images[0].address == a then 1 else 0
    case Reopen(num) =>
      var i := FirstNumbered(s.loaded, num, 0);
      if i < |s.loaded| && !s.loaded[i].image.inDyldCache && s.loaded[i].address == a then 1 else 0
    case Close(_) => 0
  }

  /** How many closes of the address the event makes, those of terminators included. */
  ghost function Closes(s: State, e: Event, a: nat): nat
    requires Valid(s) && DistinctAddresses(s.loaded)
  {
    match e
    case Load(_) => 0
    case Reopen(_) => 0
    case Close(address) => ClosesMade(s, address)[a]
  }

  lemma {:induction false} StepBalance(s: State, e: Event, a: nat)
    requires Inv(s) && Admissible(s, e)
    ensures Outstanding(Step(s, e).counts, a) == Monus(Outstanding(s.counts, a) + Opens(s, e, a), Closes(s, e, a))
  {
    match e
    case Load(images) => IncCounts(s.counts, images[0].address, a);
    case Reopen(num) =>
      var i := FirstNumbered(s.loaded, num, 0);
      if i < |s.loaded| {
        IncCounts(s.counts, s.loaded[i].address, a);
      }
    case Close(address) => CloseCounts(s, address, a);
  }

  function TotalOpens(states: seq<State>, events: seq<Event>, k: nat, a: nat): nat
    requires k <= |events| < |states| && forall j :: 0 <= j < |events| && events[j].Load? ==> events[j].images != []
  {
    if k == 0 then 0 else TotalOpens(states, events, k - 1, a) + Opens(states[k - 1], events[k - 1], a)
  }

  ghost function TotalCloses(states: seq<State>, events: seq<Event>, k: nat, a: nat): nat
    requires IsRun(states, events) && k <= |events|
  {
    if k == 0 then 0
    else
      RunKeepsInv(states, events, k - 1);
      TotalCloses(states, events, k - 1, a) + Closes(states[k - 1], events[k - 1], a)
  }

  /** No event closes the address more often than it is open. */
  ghost predicate NeverOverclosed(states: seq<State>, events: seq<Event>, k: nat, a: nat)
    requires IsRun(states, events) && k <= |events|
  {
    k == 0 || (
      RunKeepsInv(states, events, k - 1);
      Closes(states[k - 1], events[k - 1], a) <= Outstanding(states[k - 1].counts, a)
      && NeverOverclosed(states, events, k - 1, a))
  }

  /**
   Over any run the opens outstanding at an address are at least the opens less the
   closes, and exactly those if and only if it was never closed without being open.
   */
  lemma {:induction false} RunBalance(states: seq<State>, events: seq<Event>, k: nat, a: nat)
    requires IsRun(states, events) && k <= |events|
    ensures Outstanding(states[k].counts, a) + TotalCloses(states, events, k, a) >= TotalOpens(states, events, k, a)
    ensures Outstanding(states[k].counts, a) + TotalCloses(states, events, k, a) == TotalOpens(states, events, k, a)
      <==> NeverOverclosed(states, events, k, a)
  {
    if k > 0 {
      RunBalance(states, events, k - 1, a);
      RunKeepsInv(states, events, k - 1);
      StepBalance(states[k - 1], events[k - 1], a);
    }
  }

  /** As long as an image has been opened more often than closed, it and everything it reaches stay loaded. */
  lemma {:induction false} OpenedMoreStays(states: seq<State>, events: seq<Event>, i: nat, k: nat, x: Loaded, y: Loaded)
    requires IsRun(states, events) && i <= k < |states| && Reaches(states[i].loaded, x, y)
    requires forall j {:trigger states[j]} :: i <= j <= k ==>
      TotalOpens(states, events, j, x.address) > TotalCloses(states, events, j, x.address)
    ensures Reaches(states[k].loaded, x, y) && y in states[k].loaded
  {
    forall j | i <= j <= k ensures IsRoot(states[j].counts, x) {
      RunBalance(states, events, j, x.address);
      RunKeepsInv(states, events, j);
      OpenMeansOutstanding(states[j].counts, x.address);
    }
    OpenIsNeverRemoved(states, events, i, k, x, y);
  }
}
