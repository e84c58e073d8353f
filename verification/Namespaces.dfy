/** The registry of one WebSocket gateway: sockets, rooms and users
    (fastapi_modular/core/websocket/namespace.py), with the bounded send queue
    of a socket (fastapi_modular/core/websocket/socket.py). */
module Namespaces {
  import opened Wrappers

  type Frame = string

  /** The part of a socket that sending changes. */
  datatype Outbox = Outbox(queue: seq<Frame>, closing: bool)

  /** What one send does: append, replace the oldest, or give up and close. */
  function SendTo(box: Outbox, capacity: int, dropOldest: bool, frame: Frame): (bool, Outbox) {
    if box.closing then (false, box)
    else if capacity <= 0 || |box.queue| < capacity then (true, box.(queue := box.queue + [frame]))
    else if dropOldest then (true, box.(queue := box.queue[1..] + [frame]))
    else (false, box.(closing := true))
  }

  class Socket {
    const id: string
    const userId: string      // "" when the connection is anonymous
    const capacity: int
    const dropOldest: bool
    var rooms: set<string>
    var queue: seq<Frame>
    var closing: bool

    constructor (id: string, userId: string, capacity: int, dropOldest: bool)
      ensures this.id == id && this.userId == userId && rooms == {} && queue == [] && !closing
    {
      this.id, this.userId, this.capacity, this.dropOldest := id, userId, capacity, dropOldest;
      rooms, queue, closing := {}, [], false;
    }

    function Box(): Outbox
      reads this
    {
      Outbox(queue, closing)
    }

    /** No room is left; without a positive capacity there always is some. */
    predicate IsFull()
      reads this
    {
      0 < capacity <= |queue|
    }

    method Send(frame: Frame) returns (ok: bool)
      modifies this`queue, this`closing
      ensures (ok, Box()) == SendTo(old(Box()), capacity, dropOldest, frame)
      ensures old(closing) ==> !ok && closing && queue == old(queue)
      ensures old(!closing && !IsFull()) ==> ok && !closing && queue == old(queue) + [frame]
      ensures old(!closing && IsFull()) && dropOldest ==>
        && ok && !closing && |queue| == old(|queue|) && queue[|queue| - 1] == frame
        && forall i :: 0 <= i < |queue| - 1 ==> queue[i] == old(queue)[i + 1]
      ensures old(!closing && IsFull()) && !dropOldest ==> !ok && closing && queue == old(queue)
      ensures capacity > 0 && old(|queue|) <= capacity ==> |queue| <= capacity
    {
      if closing {
        return false;
      }
      if capacity <= 0 || |queue| < capacity {
        queue := queue + [frame];
        return true;
      }
      if dropOldest {
        queue := queue[1..] + [frame];
        return true;
      }
      closing := true;
      return false;
    }

    /** Whether a delivery queues the frame here, and the outbox it leaves. */
    function Fate(frame: Frame, skip: set<string>): (bool, Outbox)
      reads this
    {
      if id in skip || closing then (false, Box()) else SendTo(Box(), capacity, dropOldest, frame)
    }
  }

  /** A delivery skips the sockets it is told to and those that are closing. Of the
      others it reaches all but the full ones that do not drop, which it closes. */
  lemma FateMeans(s: Socket, frame: Frame, skip: set<string>)
    ensures var (queued, box) := s.Fate(frame, skip);
      && (queued <==> s.id !in skip && !s.closing && (!s.IsFull() || s.dropOldest))
      && (queued ==> box.queue != [] && box.queue[|box.queue| - 1] == frame && !box.closing)
      && (!queued ==> box.queue == s.queue)
      && (!queued ==> (box.closing <==> s.closing || (s.id !in skip && s.IsFull())))
  {
  }

  ghost function Accepting(targets: set<Socket>, frame: Frame, skip: set<string>): set<Socket>
    reads targets
  {
    set s | s in targets && s.Fate(frame, skip).0
  }

  /** The delivery loop over distinct sockets: each one gets the frame once, and
      the count is that of the frames queued. */
  method SendAll(targets: set<Socket>, frame: Frame, skip: set<string>) returns (count: nat)
    modifies targets`queue, targets`closing
    ensures forall s :: s in targets ==> s.Box() == old(s.Fate(frame, skip)).1
    ensures count == |old(Accepting(targets, frame, skip))|
  {
    count := 0;
    ghost var queued: set<Socket> := {};
    var left := targets;
    while left != {}
      invariant count == |queued| && left <= targets
      invariant forall s :: s in left ==> s.Box() == old(s.Box())
      invariant forall s :: s in targets - left ==> s.Box() == old(s.Fate(frame, skip)).1
      invariant queued == set s | s in targets - left && old(s.Fate(frame, skip)).0
      decreases left
    {
      var target :| target in left;
      left := left - {target};
      if target.id in skip || target.closing {
        continue;
      }
      var ok := target.Send(frame);
      if ok {
        count := count + 1;
        queued := queued + {target};
      }
    }
    assert queued == old(Accepting(targets, frame, skip));
  }

  // ------------------------------------------------------ buckets of ids

  type Buckets = map<string, set<string>>

  predicate Holds(m: Buckets, key: string, id: string) {
    key in m && id in m[key]
  }

  function BucketAdd(m: Buckets, key: string, id: string): (r: Buckets)
    ensures forall k, i :: Holds(r, k, i) <==> Holds(m, k, i) || (k == key && i == id)
    ensures NoEmptyBucket(m) ==> NoEmptyBucket(r)
  {
    m[key := (if key in m then m[key] else {}) + {id}]
  }

  /** Drops the id, and the bucket with its last id. */
  function BucketDiscard(m: Buckets, key: string, id: string): (r: Buckets)
    ensures forall k, i :: Holds(r, k, i) <==> Holds(m, k, i) && !(k == key && i == id)
    ensures NoEmptyBucket(m) ==> NoEmptyBucket(r)
  {
    if key !in m then m
    else if m[key] - {id} == {} then
      assert forall i :: i in m[key] ==> i in m[key] - {id} || i == id;
      m - {key}
    else m[key := m[key] - {id}]
  }

  predicate NoEmptyBucket(m: Buckets) {
    forall k :: k in m ==> m[k] != {}
  }

  // ---------------------------------------------------------- the registry

  class Namespace {
    var sockets: map<string, Socket>
    var rooms: Buckets
    var users: Buckets

    constructor ()
      ensures Valid() && sockets == map[]
    {
      sockets, rooms, users := map[], map[], map[];
    }

    /** Both indexes say what a scan over all sockets would say. */
    ghost predicate Valid()
      reads this, sockets.Values
    {
      && (forall id :: id in sockets ==> sockets[id].id == id)
      && NoEmptyBucket(rooms) && NoEmptyBucket(users)
      && (forall r, id :: Holds(rooms, r, id) <==> id in sockets && r in sockets[id].rooms)
      && (forall u, id :: Holds(users, u, id) <==> id in sockets && u != "" && sockets[id].userId == u)
    }

    ghost predicate Registered(s: Socket)
      reads this
    {
      s.id in sockets && sockets[s.id] == s
    }

    /** No other socket carries this id. */
    ghost predicate OwnId(s: Socket)
      reads this
    {
      s.id in sockets ==> sockets[s.id] == s
    }

    method Add(socket: Socket)
      requires Valid() && OwnId(socket)
      requires !Registered(socket) ==> socket.rooms == {}
      modifies this`sockets, this`users
      ensures Valid() && sockets == old(sockets)[socket.id := socket]
    {
      sockets := sockets[socket.id := socket];
      if socket.userId != "" {
        users := BucketAdd(users, socket.userId, socket.id);
      }
    }

    /** Removing leaves no trace of the socket in any index. */
    method Remove(socket: Socket)
      requires Valid() && OwnId(socket)
      modifies this, socket`rooms
      ensures Valid() && sockets == old(sockets) - {socket.id} && socket.rooms == {}
      ensures forall k :: !Holds(rooms, k, socket.id) && !Holds(users, k, socket.id)
    {
      sockets := sockets - {socket.id};
      var left := socket.rooms;
      while left != {}
        invariant left == socket.rooms
        invariant sockets == old(sockets) - {socket.id} && users == old(users)
        invariant NoEmptyBucket(rooms)
        invariant forall r, id :: Holds(rooms, r, id) <==>
          Holds(old(rooms), r, id) && !(id == socket.id && r !in left)
        decreases left
      {
        var room :| room in left;
        Leave(socket, room);
        left := left - {room};
      }
      if socket.userId != "" {
        users := BucketDiscard(users, socket.userId, socket.id);
      }
    }

    /** Joining keeps the indexes honest exactly for a registered socket: after
        removal, a late join leaves a dangling id in the room. */
    method Join(socket: Socket, room: string)
      requires OwnId(socket)
      modifies this`rooms, socket`rooms
      ensures rooms == BucketAdd(old(rooms), room, socket.id)
      ensures socket.rooms == old(socket.rooms) + {room}
      ensures old(Valid()) ==> (Valid() <==> Registered(socket))
    {
      rooms := BucketAdd(rooms, room, socket.id);
      socket.rooms := socket.rooms + {room};
      assert Holds(rooms, room, socket.id);
    }

    method Leave(socket: Socket, room: string)
      requires OwnId(socket)
      modifies this`rooms, socket`rooms
      ensures rooms == BucketDiscard(old(rooms), room, socket.id)
      ensures socket.rooms == old(socket.rooms) - {room}
      ensures old(Valid()) ==> Valid()
    {
      rooms := BucketDiscard(rooms, room, socket.id);
      socket.rooms := socket.rooms - {room};
    }

    /** Who a scan over all sockets selects. */
    ghost predicate Selected(id: string, room: Option<string>, user: Option<string>, socket: Option<string>)
      reads this, sockets.Values
    {
      && id in sockets
      && if socket.Some? then id == socket.value
         else if user.Some? then user.value != "" && sockets[id].userId == user.value
         else if room.Some? then room.value in sockets[id].rooms
         else true
    }

    ghost function Chosen(room: Option<string>, user: Option<string>, socket: Option<string>): set<Socket>
      reads this, sockets.Values
    {
      set id | id in sockets && Selected(id, room, user, socket) :: sockets[id]
    }

    /** The index lookup finds exactly the sockets that a scan would choose.
        They are distinct and delivery does not depend on their order, so they
        are collected in a set. */
    method Targets(room: Option<string>, user: Option<string>, socket: Option<string>) returns (found: set<Socket>)
      requires Valid()
      ensures found == Chosen(room, user, socket)
    {
      var ids;
      if socket.Some? {
        ids := if socket.value in sockets then {socket.value} else {};
      } else if user.Some? {
        ids := if user.value in users then users[user.value] else {};
        assert forall id :: id in ids <==> Holds(users, user.value, id);
      } else if room.Some? {
        ids := if room.value in rooms then rooms[room.value] else {};
        assert forall id :: id in ids <==> Holds(rooms, room.value, id);
      } else {
        ids := sockets.Keys;
      }
      assert forall id :: id in ids <==> Selected(id, room, user, socket);
      found := set id | id in ids && id in sockets :: sockets[id];
    }

    /** Delivery touches exactly the sockets that a scan would choose, minus the
        skipped and closing ones, and counts the frames it queued. */
    method Deliver(frame: Frame, room: Option<string>, user: Option<string>, socket: Option<string>,
        skip: set<string>)
      returns (count: nat)
      requires Valid()
      modifies Chosen(room, user, socket)`queue, Chosen(room, user, socket)`closing
      ensures Valid()
      ensures var chosen := old(Chosen(room, user, socket));
        && (forall s :: s in chosen ==> s.Box() == old(s.Fate(frame, skip)).1)
        && count == |old(Accepting(chosen, frame, skip))|
    {
      var targets := Targets(room, user, socket);
      count := SendAll(targets, frame, skip);
    }
  }
}
