/** The chat client's two caches of who is online, refreshed by polling and indexed when a message is sent. */
module ClientCache {
  import opened Common
  import opened Wire
  import opened Databases
  import opened Server
  import opened Client
  import opened Refinement
  import opened Runs
  import opened Invariants
  import opened PacketServer

  // ---------------------------------------------------------------------
  // The two maps

  /** Every id of the first map has one of its names in the second, and nothing else is there. */
  ghost predicate Inverse(nameToId: map<Str, U32>, idToName: map<U32, Str>) {
    && (forall name :: name in nameToId ==> nameToId[name] in idToName)
    && (forall id :: id in idToName ==> idToName[id] in nameToId && nameToId[idToName[id]] == id)
  }

  ghost predicate Injective(nameToId: map<Str, U32>) {
    forall n, m :: n in nameToId && m in nameToId && nameToId[n] == nameToId[m] ==> n == m
  }

  /** The second map gives every name back if and only if no id has two names in the first. */
  lemma RoundTripExactly(nameToId: map<Str, U32>, idToName: map<U32, Str>)
    requires Inverse(nameToId, idToName)
    ensures (forall name :: name in nameToId ==> idToName[nameToId[name]] == name) <==> Injective(nameToId)
  {
    if forall name :: name in nameToId ==> idToName[nameToId[name]] == name {
      forall n, m | n in nameToId && m in nameToId && nameToId[n] == nameToId[m]
        ensures n == m
      {
        assert idToName[nameToId[n]] == n && idToName[nameToId[m]] == m;
      }
    }
  }

  /** A list in which no id occurs twice gives no id two names. */
  lemma DistinctIdsInjective(rs: seq<Record>)
    requires DistinctIds(rs)
    ensures Injective(NamesToIds(rs))
  {
    NamesListed(rs);
    var names := NamesToIds(rs);
    forall n, m | n in names && m in names && names[n] == names[m]
      ensures n == m
    {
      var i :| 0 <= i < |rs| && rs[i] == Record(names[n], n);
      var j :| 0 <= j < |rs| && rs[j] == Record(names[m], m);
    }
  }

  class App {
    var nameToId: map<Str, U32>
    var idToName: map<U32, Str>

    /** The two maps are each other's exact inverse. */
    ghost predicate Valid()
      reads this
    {
      && Inverse(nameToId, idToName)
      && Injective(nameToId)
      && (forall name :: name in nameToId ==> idToName[nameToId[name]] == name)
    }

    constructor ()
      ensures Valid() && nameToId == map[] && idToName == map[]
    {
      nameToId, idToName := map[], map[];
    }

    /** One round of the polling loop: the response's value and its list of users. */
    method Refresh(respValue: U32, onlineUsers: seq<Record>)
      modifies this
      ensures nameToId == if respValue == 0 then NamesToIds(onlineUsers) else old(nameToId)
      ensures if nameToId == old(nameToId) then idToName == old(idToName) else Inverse(nameToId, idToName)
      ensures old(Valid()) && DistinctIds(onlineUsers) ==> Valid()
    {
      if respValue != 0 {
        return;
      }
      var newNameToId: map<Str, U32> := map[];
      for i := 0 to |onlineUsers|
        invariant newNameToId == NamesToIds(onlineUsers[..i])
      {
        assert onlineUsers[..i + 1][..i] == onlineUsers[..i];
        newNameToId := newNameToId[onlineUsers[i].text := onlineUsers[i].id];
      }
      assert onlineUsers[..|onlineUsers|] == onlineUsers;
      if newNameToId == nameToId {
        return;
      }
      nameToId := newNameToId;
      RebuildNames();
      if DistinctIds(onlineUsers) {
        DistinctIdsInjective(onlineUsers);
        RoundTripExactly(nameToId, idToName);
      }
    }

    /** Clears the second map and fills it from the first, in whatever order that is walked. */
    method RebuildNames()
      modifies this`idToName
      ensures Inverse(nameToId, idToName)
    {
      idToName := map[];
      var left := nameToId.Keys;
      while left != {}
        invariant left <= nameToId.Keys
        invariant forall name :: name in nameToId && name !in left ==> nameToId[name] in idToName
        invariant forall id :: id in idToName ==> idToName[id] in nameToId && nameToId[idToName[id]] == id
      {
        var name :| name in left;
        Emplace(nameToId[name], name);
        left := left - {name};
      }
    }

    /** `id_to_name_.emplace`: an id that is there already keeps its name. */
    method Emplace(id: U32, name: Str)
      modifies this`idToName
      ensures idToName == old(if id in idToName then idToName else idToName[id := name])
    {
      if id !in idToName {
        idToName := idToName[id := name];
      }
    }

    /** `name_to_id_[target]`: a name that is not there is inserted with id 0. */
    method TargetId(target: Str) returns (id: U32)
      modifies this`nameToId
      ensures target in old(nameToId) ==> nameToId == old(nameToId) && id == nameToId[target]
      ensures target !in old(nameToId) ==> nameToId == old(nameToId)[target := 0] && id == 0
    {
      if target !in nameToId {
        nameToId := nameToId[target := 0];
      }
      id := nameToId[target];
    }

    /** The polling thread, once per response. */
    method Poll(ghost st: Store, id: U32, ghost rounds: seq<Round>, responses: seq<ResponsePacket>)
      requires Valid() && RoundsLegal(st, rounds) && responses == Responses(st, id, rounds)
      modifies this
      ensures Valid()
      ensures nameToId == CacheAfter(st, id, old(nameToId), rounds)
      ensures var users := FinalAfter(st, rounds).users;
        if rounds != [] && id in users then
          && (forall name :: name in nameToId <==> exists k :: k in users && k != id && users[k].username == name)
          && (forall name :: name in nameToId ==>
                nameToId[name] in users && nameToId[name] != id && users[nameToId[name]].username == name)
        else nameToId == old(nameToId)
    {
      CacheMeans(st, id, nameToId, rounds);
      ghost var now, rest := st, rounds;
      for i := 0 to |responses|
        invariant Valid()
        invariant RoundsLegal(now, rest) && responses[i..] == Responses(now, id, rest)
        invariant CacheAfter(now, id, nameToId, rest) == CacheAfter(st, id, old(nameToId), rounds)
      {
        assert responses[i..][0] == responses[i] && responses[i..][1..] == responses[i + 1..];
        ghost var after := Final(now, rest[0].evs);
        PollDistinct(after, id, rest[0].order);
        var resp := responses[i];
        Refresh(resp.usersValue, resp.onlineUsers);
        now, rest := after, rest[1..];
      }
    }

    /**
      A target is accepted only if its name is known at that moment. Then, while
      the other thread goes on polling, each message looks the name up again; the
      lookup never inserts, and both maps stay as the polls left them.
    */
    method ChatWithUser(target: Str, ghost st: Store, ghost names: seq<Str>, id: U32,
                        ghost rounds: seq<Round>, responses: seq<ResponsePacket>)
      returns (targetId: Option<U32>)
      requires Valid() && RoundsLegal(st, rounds) && responses == Responses(st, id, rounds)
      requires Registry(st, names) && |names| + Registrations(rounds) <= TWO_TO_THE_32
      requires NamesOwned(st, id, nameToId)
      modifies this
      ensures Valid()
      ensures target !in old(nameToId) ==> targetId == None && nameToId == old(nameToId)
      ensures target in old(nameToId) ==>
        && nameToId == CacheAfter(st, id, old(nameToId), rounds)
        && NamesOwned(FinalAfter(st, rounds), id, nameToId)
        && target in nameToId && targetId == Some(nameToId[target])
        && var users := FinalAfter(st, rounds).users;
           targetId.value in users && targetId.value != id && users[targetId.value].username == target
    {
      if target !in nameToId {
        return None;
      }
      CacheNeverForgets(st, names, id, nameToId, rounds);
      Poll(st, id, rounds, responses);
      var found := TargetId(target);
      return Some(found);
    }
  }

  // ---------------------------------------------------------------------
  // Polling a running server

  /** The server's answer to a poll by `id` at this moment. */
  ghost function PollOf(st: Store, id: U32, order: seq<U32>): (resp: ResponsePacket)
    requires forall k :: k in order ==> k in st.users
    ensures resp.RespUsers?
  {
    UsersPacket(st, RequestUsers(Some(id)), order)
  }

  lemma PollDistinct(st: Store, id: U32, order: seq<U32>)
    requires IsOrder(order, st.users.Keys)
    ensures DistinctIds(PollOf(st, id, order).onlineUsers)
  {
    OthersDistinct(st.users, id, order);
  }

  /** Any requests served, then one poll whose walk takes the given order. */
  datatype Round = Round(evs: seq<Event>, order: seq<U32>)

  ghost predicate RoundsLegal(st: Store, rounds: seq<Round>)
    decreases |rounds|
  {
    rounds == [] ||
    (var r := rounds[0];
     && Legal(st, r.evs)
     && IsOrder(r.order, Final(st, r.evs).users.Keys)
     && RoundsLegal(Final(st, r.evs), rounds[1..]))
  }

  /** How many registrations the rounds contain. */
  function Registrations(rounds: seq<Round>): nat {
    if rounds == [] then 0 else |NamesIn(Requests(rounds[0].evs))| + Registrations(rounds[1..])
  }

  /** The answers to the polls. */
  ghost function Responses(st: Store, id: U32, rounds: seq<Round>): (resps: seq<ResponsePacket>)
    requires RoundsLegal(st, rounds)
    ensures |resps| == |rounds|
    ensures forall i :: 0 <= i < |resps| ==> resps[i].RespUsers?
    decreases |rounds|
  {
    if rounds == [] then [] else
    var st' := Final(st, rounds[0].evs);
    [PollOf(st', id, rounds[0].order)] + Responses(st', id, rounds[1..])
  }

  /** The first map after one poll: a negative answer leaves it alone. */
  ghost function Polled(st: Store, id: U32, names: map<Str, U32>, order: seq<U32>): map<Str, U32>
    requires forall k :: k in order ==> k in st.users
  {
    var resp := PollOf(st, id, order);
    if resp.usersValue == 0 then NamesToIds(resp.onlineUsers) else names
  }

  /** The first map after all the rounds. */
  ghost function CacheAfter(st: Store, id: U32, names: map<Str, U32>, rounds: seq<Round>): map<Str, U32>
    requires RoundsLegal(st, rounds)
    decreases |rounds|
  {
    if rounds == [] then names else
    var st' := Final(st, rounds[0].evs);
    CacheAfter(st', id, Polled(st', id, names, rounds[0].order), rounds[1..])
  }

  /** Every cached name is that of the other user under its id. */
  ghost predicate NamesOwned(st: Store, id: U32, names: map<Str, U32>) {
    forall name :: name in names ==>
      names[name] in st.users && names[name] != id && st.users[names[name]].username == name
  }

  /** The cached names are exactly those of the other users, each under the id of a user of that name. */
  ghost predicate KnowsOthers(st: Store, id: U32, names: map<Str, U32>) {
    && (forall name :: name in names <==> exists k :: k in st.users && k != id && st.users[k].username == name)
    && NamesOwned(st, id, names)
  }

  /** What one poll leaves in the cache of a registered requester. */
  lemma PolledNames(st: Store, id: U32, names: map<Str, U32>, order: seq<U32>)
    requires IsOrder(order, st.users.Keys) && id in st.users
    ensures KnowsOthers(st, id, Polled(st, id, names, order))
  {
    var rs := Others(st.users, id, order);
    OthersContents(st.users, id, order);
    NamesListed(rs);
    forall name | exists k :: k in st.users && k != id && st.users[k].username == name
      ensures name in NamesToIds(rs)
    {
      var k :| k in st.users && k != id && st.users[k].username == name;
      assert Record(k, name) in rs;
    }
    hide NamesToIds, Others;
  }

  lemma NamesStay(st: Store, st': Store, id: U32, names: map<Str, U32>)
    requires Extends(st, st') && NamesOwned(st, id, names)
    ensures NamesOwned(st', id, names)
  {
  }

  /** No request removes a user. */
  lemma {:induction false} UsersStay(st: Store, evs: seq<Event>)
    requires Legal(st, evs)
    ensures st.users.Keys <= Final(st, evs).users.Keys
    decreases |evs|
  {
    hide Exchange, StoreAfter, Payload, U32At;
    if evs != [] {
      StoreOfExchange(st, evs[0]);
      StepFrame(st, Kind(evs[0].req), Payload(evs[0].req));
      UsersStay(Exchange(st, evs[0]).0, evs[1..]);
    }
  }

  lemma {:induction false} UsersStayAfter(st: Store, rounds: seq<Round>)
    requires RoundsLegal(st, rounds)
    ensures st.users.Keys <= FinalAfter(st, rounds).users.Keys
    decreases |rounds|
  {
    hide Final, Legal;
    if rounds != [] {
      UsersStay(st, rounds[0].evs);
      UsersStayAfter(Final(st, rounds[0].evs), rounds[1..]);
    }
  }

  /**
    Whatever requests were served: the cache knows exactly the other users that
    were there at the last poll, if the requester was; otherwise it never changed.
  */
  lemma {:induction false} CacheMeans(st: Store, id: U32, cache: map<Str, U32>, rounds: seq<Round>)
    requires RoundsLegal(st, rounds)
    ensures var st', cache' := FinalAfter(st, rounds), CacheAfter(st, id, cache, rounds);
      if rounds != [] && id in st'.users then KnowsOthers(st', id, cache') else cache' == cache
    decreases |rounds|
  {
    hide Final, Legal, KnowsOthers;
    if rounds != [] {
      var r := rounds[0];
      var st' := Final(st, r.evs);
      UsersStayAfter(st', rounds[1..]);
      CacheMeans(st', id, Polled(st', id, cache, r.order), rounds[1..]);
      if rounds[1..] == [] && id in st'.users {
        PolledNames(st', id, cache, r.order);
      }
    }
  }

  /** Requests and one poll: no name leaves the cache, and every name stays that of the user under its id. */
  lemma RoundKeeps(st: Store, names: seq<Str>, id: U32, cache: map<Str, U32>, r: Round)
    requires Registry(st, names) && |names| + |NamesIn(Requests(r.evs))| <= TWO_TO_THE_32
    requires Legal(st, r.evs) && IsOrder(r.order, Final(st, r.evs).users.Keys) && NamesOwned(st, id, cache)
    ensures Registry(Final(st, r.evs), names + NamesIn(Requests(r.evs)))
    ensures var cache' := Polled(Final(st, r.evs), id, cache, r.order);
      NamesOwned(Final(st, r.evs), id, cache') && forall name :: name in cache ==> name in cache'
  {
    var st' := Final(st, r.evs);
    RunRegistry(st, names, r.evs);
    NamesNeverChange(st, names, r.evs);
    NamesStay(st, st', id, cache);
    if id in st'.users {
      PolledNames(st', id, cache, r.order);
    }
    hide Final, Legal, Registry, NamesIn, Requests;
  }

  /** The store after the rounds. */
  ghost function FinalAfter(st: Store, rounds: seq<Round>): Store
    requires RoundsLegal(st, rounds)
    decreases |rounds|
  {
    if rounds == [] then st else FinalAfter(Final(st, rounds[0].evs), rounds[1..])
  }

  /**
    A name that was ever offered as a chat target stays in the map through all
    later polls, whatever requests the server gets in between, as long as there
    are at most 2^32 registrations in all; and every cached id is all
    along that of another user with the cached name.
  */
  lemma {:induction false} CacheNeverForgets(st: Store, names: seq<Str>, id: U32, cache: map<Str, U32>, rounds: seq<Round>)
    requires Registry(st, names) && |names| + Registrations(rounds) <= TWO_TO_THE_32
    requires RoundsLegal(st, rounds) && NamesOwned(st, id, cache)
    ensures forall name :: name in cache ==> name in CacheAfter(st, id, cache, rounds)
    ensures NamesOwned(FinalAfter(st, rounds), id, CacheAfter(st, id, cache, rounds))
    decreases |rounds|
  {
    hide Final, Legal, Registry, NamesIn, Polled, NamesOwned;
    if rounds != [] {
      var r := rounds[0];
      RoundKeeps(st, names, id, cache, r);
      var st' := Final(st, r.evs);
      CacheNeverForgets(st', names + NamesIn(Requests(r.evs)), id, Polled(st', id, cache, r.order), rounds[1..]);
    }
  }
}
