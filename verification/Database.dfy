/** The in-memory store of the server: its value, its operations and what a registration promises. */
module Databases {
  import opened Common

  /** The two fields of the store as a value. */
  datatype Store = Store(nextId: U32, users: map<U32, UserMetadata>)

  const EMPTY_STORE := Store(0, map[])

  function RegisterUser(st: Store, name: Str): (Store, U32) {
    (Store(Wrap(st.nextId + 1), st.users[st.nextId := UserMetadata(name, [])]), st.nextId)
  }

  function QueueMsg(st: Store, target: U32, m: Msg): Store {
    if target !in st.users then st else
    var u := st.users[target];
    st.(users := st.users[target := UserMetadata(u.username, u.msgQ + [m])])
  }

  function ClearQueue(st: Store, id: U32): Store
    requires id in st.users
  {
    st.(users := st.users[id := UserMetadata(st.users[id].username, [])])
  }

  /** The messages waiting for an id, none if nobody has it. */
  function Box(st: Store, id: U32): seq<Msg> {
    if id in st.users then st.users[id].msgQ else []
  }

  class Database {
    var nextId: U32
    var users: map<U32, UserMetadata>

    function Value(): Store
      reads this
    {
      Store(nextId, users)
    }

    constructor ()
      ensures Value() == EMPTY_STORE
    {
      nextId, users := 0, map[];
    }

    method Register(name: Str) returns (id: U32)
      modifies this
      ensures (Value(), id) == RegisterUser(old(Value()), name)
    {
      users := users[nextId := UserMetadata(name, [])];
      id := nextId;
      nextId := Wrap(nextId + 1);
    }

    method Queue(target: U32, m: Msg) returns (ok: bool)
      modifies this`users
      ensures ok <==> target in old(users)
      ensures Value() == QueueMsg(old(Value()), target, m)
    {
      if target !in users {
        return false;
      }
      var u := Subscript(target);
      users := users[target := u.(msgQ := u.msgQ + [m])];
      return true;
    }

    predicate UserExists(id: U32)
      reads this
    {
      id in users
    }

    function GetNumUsers(): U32
      reads this
    {
      Wrap(|users|)
    }

    /** `operator[]`: inserts an empty entry when the id is not there. */
    method Subscript(id: U32) returns (u: UserMetadata)
      modifies this`users
      ensures users == old(if id in users then users else users[id := UserMetadata([], [])])
      ensures u == users[id]
    {
      if id !in users {
        users := users[id := UserMetadata([], [])];
      }
      u := users[id];
    }

    /** `db[id].msg_q.clear()`. */
    method Clear(id: U32)
      requires UserExists(id)
      modifies this`users
      ensures Value() == ClearQueue(old(Value()), id)
    {
      var u := Subscript(id);
      users := users[id := u.(msgQ := [])];
    }
  }

  // ---------------------------------------------------------------------
  // Iteration orders and sizes

  /** `order` lists each key once: one of the orders in which the hash map can be walked. */
  ghost predicate IsOrder(order: seq<U32>, keys: set<U32>) {
    && (forall k :: k in order <==> k in keys)
    && (forall i, j :: 0 <= i < j < |order| ==> order[i] != order[j])
  }

  /** Visiting one more key. */
  lemma OrderSnoc(order: seq<U32>, keys: set<U32>, unvisited: set<U32>, k: U32)
    requires k in unvisited && unvisited <= keys && IsOrder(order, keys - unvisited)
    ensures IsOrder(order + [k], keys - (unvisited - {k}))
  {
  }

  lemma {:induction false} OrderLength(order: seq<U32>, keys: set<U32>)
    requires IsOrder(order, keys)
    ensures |order| == |keys|
  {
    if order == [] {
      assert keys == {};
    } else {
      var init, last := order[..|order| - 1], order[|order| - 1];
      assert order == init + [last];
      OrderLength(init, keys - {last});
    }
  }

  lemma {:induction false} SomeOrder(keys: set<U32>) returns (order: seq<U32>)
    ensures IsOrder(order, keys)
  {
    if keys == {} {
      order := [];
    } else {
      var k :| k in keys;
      var rest := SomeOrder(keys - {k});
      order := rest + [k];
    }
  }

  /** The naturals below n. */
  ghost function Below(n: nat): (s: set<int>)
    ensures |s| == n
    ensures forall x :: x in s <==> 0 <= x < n
  {
    if n == 0 then {} else Below(n - 1) + {n - 1}
  }

  lemma {:induction false} SubsetSize<T>(a: set<T>, b: set<T>)
    requires a <= b
    ensures |a| <= |b|
    ensures |a| == |b| ==> a == b
  {
    if a == {} {
      assert |b| == 0 ==> b == {};
    } else {
      var x :| x in a;
      SubsetSize(a - {x}, b - {x});
      assert a - {x} == b - {x} ==> a == (a - {x}) + {x} == (b - {x}) + {x} == b;
    }
  }

  /** There are no more than 2^32 ids to give out. */
  lemma AtMostAllIds(keys: set<U32>)
    ensures |keys| <= TWO_TO_THE_32
  {
    SubsetSize(keys, Below(TWO_TO_THE_32));
  }

  // ---------------------------------------------------------------------
  // Registration

  /** Registers the names one after the other. */
  ghost function RegisterAll(st: Store, names: seq<Str>): (r: (Store, seq<U32>))
    ensures |r.1| == |names|
  {
    if names == [] then (st, []) else
    var (st1, ids) := RegisterAll(st, names[..|names| - 1]);
    var (st2, id) := RegisterUser(st1, names[|names| - 1]);
    (st2, ids + [id])
  }

  lemma {:induction false} RegisterAllIds(names: seq<Str>)
    ensures RegisterAll(EMPTY_STORE, names).0.nextId == Wrap(|names|)
    ensures forall i :: 0 <= i < |names| ==> RegisterAll(EMPTY_STORE, names).1[i] == Wrap(i)
  {
    if names != [] {
      RegisterAllIds(names[..|names| - 1]);
      WrapAdd(|names| - 1, 1);
    }
  }

  /** Ids are never given out twice exactly as long as there are at most 2^32 registrations. */
  lemma IdsFreshExactly(names: seq<Str>)
    ensures var ids := RegisterAll(EMPTY_STORE, names).1;
      (forall i, j :: 0 <= i < j < |ids| ==> ids[i] != ids[j]) <==> |names| <= TWO_TO_THE_32
  {
    RegisterAllIds(names);
    var ids := RegisterAll(EMPTY_STORE, names).1;
    if |names| > TWO_TO_THE_32 {
      assert ids[0] == ids[TWO_TO_THE_32];
    }
  }
}
