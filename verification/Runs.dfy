/** Whole runs: exactly which runs refine the chat system, and what they conserve. */
module Runs {
  import opened Common
  import opened Wire
  import opened Databases
  import opened Server
  import Client
  import opened ChatSystem
  import opened Refinement

  // ---------------------------------------------------------------------
  // Refinement of whole runs

  function ServerAfter(st: Store, req: Request): Store {
    StoreAfter(st, Kind(req), Payload(req))
  }

  /** Every exchange of the run agrees, whatever the buffers held and however the users were walked. */
  ghost predicate RunAgrees(st: Store, c: Chat, reqs: seq<Request>)
    requires |c.names| == |c.boxes|
    decreases |reqs|
  {
    reqs == [] ||
    (Agrees(st, c, reqs[0]) && RunAgrees(ServerAfter(st, reqs[0]), Step(c, reqs[0]).0, reqs[1..]))
  }

  predicate RunFits(c: Chat, reqs: seq<Request>)
    requires |c.names| == |c.boxes|
    decreases |reqs|
  {
    reqs == [] || (Fits(c, reqs[0]) && RunFits(Step(c, reqs[0]).0, reqs[1..]))
  }

  lemma AgreesOnFits(st: Store, c: Chat, ev: Event)
    requires Related(st, c) && IsOrder(ev.order, st.users.Keys) && Fits(c, ev.req)
    ensures AgreesOn(st, c, ev)
  {
    hide AgreesOn, Exchange;
    match ev.req
    case Register(_) => RegisterExactly(st, c, ev);
    case Users(id) => if id < |c.names| { UsersExactlyKnown(st, c, ev); } else { UsersUnknown(st, c, ev); }
    case Send(_, _, _) => SendExactly(st, c, ev);
    case Recv(_) => RecvFits(st, c, ev);
  }

  lemma MisfitDisagrees(st: Store, c: Chat, ev: Event)
    requires Related(st, c) && IsOrder(ev.order, st.users.Keys) && !Fits(c, ev.req) && ev.rxTail == []
    ensures !AgreesOn(st, c, ev)
  {
    hide AgreesOn, Exchange;
    match ev.req
    case Register(_) => RegisterExactly(st, c, ev);
    case Users(_) => UsersExactlyKnown(st, c, ev);
    case Send(_, _, _) => SendExactly(st, c, ev);
    case Recv(id) => if id < |c.names| { TooMuchMailMisfits(st, c, ev); } else { UnknownMisfits(st, c, ev); }
  }

  /** From related states, one exchange is faithful in all circumstances if and only if the request fits. */
  lemma StepExactly(st: Store, c: Chat, req: Request)
    requires Related(st, c)
    ensures Agrees(st, c, req) <==> Fits(c, req)
    ensures Fits(c, req) ==> Related(ServerAfter(st, req), Step(c, req).0)
  {
    KnownIds(st, c, 0);
    hide Fits, Related;
    var order := SomeOrder(st.users.Keys);
    var ev := Event(req, order, [], []);
    if Fits(c, req) {
      forall ev: Event | ev.req == req && IsOrder(ev.order, st.users.Keys)
        ensures AgreesOn(st, c, ev)
      {
        AgreesOnFits(st, c, ev);
      }
      assert AgreesOn(st, c, ev);
      ExchangeMeans(st, ev);
    } else {
      MisfitDisagrees(st, c, ev);
    }
  }

  /** A run refines the chat system if and only if every request fits when it is made. */
  lemma {:induction false} RunExactly(st: Store, c: Chat, reqs: seq<Request>)
    requires Related(st, c)
    ensures RunAgrees(st, c, reqs) <==> RunFits(c, reqs)
    decreases |reqs|
  {
    KnownIds(st, c, 0);
    hide Agrees, Fits, Related, ServerAfter;
    if reqs != [] {
      StepExactly(st, c, reqs[0]);
      if Fits(c, reqs[0]) {
        RunExactly(ServerAfter(st, reqs[0]), Step(c, reqs[0]).0, reqs[1..]);
      }
    }
  }

  lemma EmptyRelated()
    ensures Related(EMPTY_STORE, EMPTY_CHAT)
  {
  }

  /** The same, from the server's start. */
  lemma RefinementTheorem(reqs: seq<Request>)
    ensures RunAgrees(EMPTY_STORE, EMPTY_CHAT, reqs) <==> RunFits(EMPTY_CHAT, reqs)
  {
    EmptyRelated();
    RunExactly(EMPTY_STORE, EMPTY_CHAT, reqs);
  }

  // ---------------------------------------------------------------------
  // Runs as they happen, faithful or not

  /**
    Each event names a possible walk of the users present at that moment.
    Nothing else is asked of a run: it may contain any requests whatever.
  */
  ghost predicate Legal(st: Store, evs: seq<Event>)
    decreases |evs|
  {
    evs == [] || (IsOrder(evs[0].order, st.users.Keys) && Legal(Exchange(st, evs[0]).0, evs[1..]))
  }

  ghost function Final(st: Store, evs: seq<Event>): Store
    requires Legal(st, evs)
    decreases |evs|
  {
    if evs == [] then st else Final(Exchange(st, evs[0]).0, evs[1..])
  }

  function Requests(evs: seq<Event>): (reqs: seq<Request>)
    ensures |reqs| == |evs|
    ensures forall i :: 0 <= i < |evs| ==> reqs[i] == evs[i].req
  {
    seq(|evs|, i requires 0 <= i < |evs| => evs[i].req)
  }

  /** The first component of an exchange needs no buffers and no walk. */
  lemma StoreOfExchange(st: Store, ev: Event)
    requires forall k :: k in ev.order ==> k in st.users
    ensures Exchange(st, ev).0 == ServerAfter(st, ev.req)
  {
    ExchangeMeans(st, ev);
  }

  /** One more event at the end of a run. */
  lemma {:induction false} LegalSnoc(st: Store, evs: seq<Event>, ev: Event)
    requires Legal(st, evs) && IsOrder(ev.order, Final(st, evs).users.Keys)
    ensures Legal(st, evs + [ev]) && Final(st, evs + [ev]) == Exchange(Final(st, evs), ev).0
    decreases |evs|
  {
    hide Exchange;
    if evs == [] {
      assert evs + [ev] == [ev] && [ev][1..] == [];
    } else {
      assert (evs + [ev])[0] == evs[0] && (evs + [ev])[1..] == evs[1..] + [ev];
      LegalSnoc(Exchange(st, evs[0]).0, evs[1..], ev);
    }
  }
}
