/**
  The chat system as its users know it: numbered users with names and FIFO
  mailboxes. No bytes, buffers, lengths or 32-bit numbers.
*/
module ChatSystem {
  import opened Common

  datatype Chat = Chat(names: seq<Str>, boxes: seq<seq<Msg>>)

  datatype Answer =
    | Registered(id: nat)
    | Online(others: map<nat, Str>)
    | Sent(status: nat)
    | Mail(msgs: seq<Msg>)
    | Denied

  const EMPTY_CHAT := Chat([], [])

  /** Every user has a mailbox, and only users appear as senders. */
  ghost predicate WellFormed(c: Chat) {
    && |c.names| == |c.boxes|
    && forall u, i :: 0 <= u < |c.boxes| && 0 <= i < |c.boxes[u]| ==> c.boxes[u][i].id < |c.names|
  }

  function Step(c: Chat, req: Request): (r: (Chat, Answer))
    requires |c.names| == |c.boxes|
    ensures |r.0.names| == |r.0.boxes|
  {
    match req
    case Register(name) =>
      (Chat(c.names + [name], c.boxes + [[]]), Registered(|c.names|))
    case Users(id) =>
      if id >= |c.names| then (c, Denied) else
      (c, Online(map u: nat | u < |c.names| && u != id :: c.names[u]))
    case Send(src, target, msg) =>
      if src >= |c.names| then (c, Sent(1)) else
      if target >= |c.names| then (c, Sent(2)) else
      (c.(boxes := c.boxes[target := c.boxes[target] + [Record(src, msg)]]), Sent(0))
    case Recv(id) =>
      if id >= |c.names| then (c, Denied) else
      (c.(boxes := c.boxes[id := []]), Mail(c.boxes[id]))
  }

  lemma StepWellFormed(c: Chat, req: Request)
    requires WellFormed(c)
    ensures WellFormed(Step(c, req).0)
  {
  }

  /** The room the listing of everybody but `id` takes. */
  function RosterSize(names: seq<Str>, id: nat): nat {
    if names == [] then 0 else
    var n := |names| - 1;
    RosterSize(names[..n], id) + if n == id then 0 else 8 + |names[n]|
  }
}
