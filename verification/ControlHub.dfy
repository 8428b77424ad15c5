/**
 The hub that tells connected clients to fetch their authoritative state again
 (internal/service/control.go), and the state-change-then-publish order of its callers
 (internal/service/admin.go, internal/service/announcement.go).

 A channel of capacity one is a table entry named by its subscriber id. The class has
 the hub's methods, each run alone; `State` is the same hub at the grain at which it is
 really shared: publishers hold the read lock together and send one channel at a time
 while clients receive and fetch, and subscribing or unsubscribing waits for them all.
 */
module ControlHubs {
  import opened Options
  import opened SetFacts

  datatype ControlEvent = ControlEvent(kind: string, issuedAt: string, announcementID: int, revision: int)

  function Stamped(event: ControlEvent, now: string): ControlEvent {
    if event.issuedAt == "" then event.(issuedAt := now) else event
  }

  datatype Channel = Channel(buffer: Option<ControlEvent>, closed: bool) {
    /** A non-blocking send: dropped if the slot is taken. */
    function Offered(event: ControlEvent): Channel {
      if buffer.Some? then this else this.(buffer := Some(event))
    }
  }

  type Subscribers = map<int, set<nat>>
  type Channels = map<nat, Channel>

  function Of(subscribers: Subscribers, user: int): set<nat> {
    if user in subscribers then subscribers[user] else {}
  }

  function Everyone(subscribers: Subscribers): set<nat> {
    set user, id | user in subscribers && id in subscribers[user] :: id
  }

  function OfferedTo(channels: Channels, ids: set<nat>, event: ControlEvent): Channels {
    map id | id in channels :: if id in ids then channels[id].Offered(event) else channels[id]
  }

  /** `id` is subscribed for `user`. */
  predicate Subscribed(subscribers: Subscribers, user: int, id: nat) {
    user in subscribers && id in subscribers[user]
  }

  /** A send to a channel: an empty slot takes the event, under its own time of issue or
      else the time of the send, and a full one stays as it is. */
  predicate Reached(before: Channel, after: Channel, event: ControlEvent, now: string) {
    if before.buffer.Some? then after == before
    else after == Channel(Some(ControlEvent(event.kind, if event.issuedAt == "" then now else event.issuedAt,
                                            event.announcementID, event.revision)), before.closed)
  }

  /** Every subscribed channel is open and known, every open channel is subscribed once,
      and no user is kept without subscribers. */
  ghost predicate WellFormed(nextID: nat, subscribers: Subscribers, channels: Channels) {
    && (forall id :: id in channels ==> id <= nextID)
    && (forall user :: user in subscribers ==> subscribers[user] != {})
    && (forall user, id :: user in subscribers && id in subscribers[user] ==>
          id in channels && !channels[id].closed)
    && (forall u, v, id :: u in subscribers && v in subscribers && id in subscribers[u] && id in subscribers[v] ==>
          u == v)
    && (forall id :: id in channels && !channels[id].closed ==> id in Everyone(subscribers))
  }

  function Joined(subscribers: Subscribers, user: int, id: nat): Subscribers {
    subscribers[user := Of(subscribers, user) + {id}]
  }

  function Departed(subscribers: Subscribers, user: int, id: nat): Subscribers {
    var rest := Of(subscribers, user) - {id};
    if rest == {} then subscribers - {user} else subscribers[user := rest]
  }

  class ControlHub {
    var nextID: nat
    var subscribers: Subscribers
    var channels: Channels

    ghost predicate Valid()
      reads this
    {
      WellFormed(nextID, subscribers, channels)
    }

    constructor ()
      ensures Valid() && nextID == 0 && subscribers == map[] && channels == map[]
    {
      nextID, subscribers, channels := 0, map[], map[];
    }

    method Subscribe(user: int) returns (id: nat)
      requires Valid()
      modifies this
      ensures Valid() && id == nextID == old(nextID) + 1 && id !in old(channels)
      ensures subscribers == Joined(old(subscribers), user, id)
      ensures channels == old(channels)[id := Channel(None, false)]
      ensures forall u, k :: Subscribed(subscribers, u, k) <==> Subscribed(old(subscribers), u, k) || (u == user && k == id)
    {
      JoinExactly(subscribers, user, nextID + 1);
      JoinKeeps(nextID, subscribers, channels, user);
      nextID := nextID + 1;
      id := nextID;
      channels := channels[id := Channel(None, false)];
      if user !in subscribers {
        subscribers := subscribers[user := {}];
      }
      subscribers := subscribers[user := subscribers[user] + {id}];
      assert subscribers == Joined(old(subscribers), user, id);
    }

    /** The closure that `Subscribe` returned for `user` and `id`; only its first call acts. */
    method Unsubscribe(user: int, id: nat)
      requires Valid() && id in channels && (!channels[id].closed ==> id in Of(subscribers, user))
      modifies this
      ensures Valid() && nextID == old(nextID) && id in channels && channels[id].closed
      ensures channels == old(channels)[id := old(channels)[id].(closed := true)]
      ensures subscribers == if old(channels)[id].closed then old(subscribers) else Departed(old(subscribers), user, id)
      ensures forall u, k :: Subscribed(subscribers, u, k) <==> Subscribed(old(subscribers), u, k) && k != id
    {
      if channels[id].closed {
        assert channels == channels[id := channels[id].(closed := true)];
        HeldExactly(nextID, subscribers, channels);
        return;
      }
      LeaveExactly(nextID, subscribers, channels, user, id);
      LeaveKeeps(nextID, subscribers, channels, user, id);
      subscribers := subscribers[user := subscribers[user] - {id}];
      if subscribers[user] == {} {
        subscribers := subscribers - {user};
      }
      assert subscribers == Departed(old(subscribers), user, id);
      channels := channels[id := channels[id].(closed := true)];
      assert Valid();
    }

    method PublishEvent(user: int, event: ControlEvent, now: string)
      requires Valid()
      modifies this`channels
      ensures Valid()
      ensures channels == OfferedTo(old(channels), Of(subscribers, user), Stamped(event, now))
      ensures channels.Keys == old(channels).Keys
      ensures forall id :: id in channels ==>
                if Subscribed(subscribers, user, id) then Reached(old(channels)[id], channels[id], event, now)
                else channels[id] == old(channels)[id]
    {
      var stamped := Stamped(event, now);
      if user in subscribers {
        SendAll(subscribers[user], stamped);
      }
    }

    method Broadcast(event: ControlEvent, now: string)
      requires Valid()
      modifies this`channels
      ensures Valid()
      ensures channels == OfferedTo(old(channels), Everyone(subscribers), Stamped(event, now))
      ensures channels.Keys == old(channels).Keys
      ensures forall id :: id in channels ==>
                if channels[id].closed then channels[id] == old(channels)[id]
                else Reached(old(channels)[id], channels[id], event, now)
    {
      var stamped := Stamped(event, now);
      var todo := subscribers.Keys;
      ghost var done: set<nat> := {};
      while todo != {}
        invariant todo <= subscribers.Keys && Valid()
        invariant done == set user, id | user in subscribers && user !in todo && id in subscribers[user] :: id
        invariant channels == OfferedTo(old(channels), done, stamped)
        decreases todo
      {
        Inhabited(todo);
        var user :| user in todo;
        todo := todo - {user};
        done := done + subscribers[user];
        SendAll(subscribers[user], stamped);
      }
      assert done == Everyone(subscribers);
    }

    /** `AnnouncementService.notify`. For a targeted announcement a channel is sent to if and
        only if a targeted user holds it, at the time of the first send to that user; for any
        other, if and only if some user holds it. No other channel is touched. */
    method Notify(targetType: string, userIDs: seq<int>, event: ControlEvent, clock: nat -> string)
      requires Valid()
      modifies this`channels
      ensures Valid() && channels.Keys == old(channels).Keys
      ensures targetType == "users" ==> forall id :: id in channels ==>
                && (forall i: nat :: FirstHolder(subscribers, userIDs, id, i) ==>
                      Reached(old(channels)[id], channels[id], event, clock(i)))
                && ((forall i :: 0 <= i < |userIDs| ==> !Subscribed(subscribers, userIDs[i], id)) ==>
                      channels[id] == old(channels)[id])
      ensures targetType != "users" ==> forall id :: id in channels ==>
                && (forall user :: Subscribed(subscribers, user, id) ==>
                      Reached(old(channels)[id], channels[id], event, clock(0)))
                && ((forall user :: user in subscribers ==> id !in subscribers[user]) ==>
                      channels[id] == old(channels)[id])
    {
      if targetType != "users" {
        Broadcast(event, clock(0));
        HeldExactly(nextID, subscribers, channels);
        return;
      }
      for i := 0 to |userIDs|
        invariant Valid() && channels.Keys == old(channels).Keys
        invariant forall id :: id in channels ==>
                    NotifiedUpTo(subscribers, userIDs, i, id, old(channels)[id], channels[id], event, clock)
      {
        ghost var before := channels;
        PublishEvent(userIDs[i], event, clock(i));
        forall id | id in channels
          ensures NotifiedUpTo(subscribers, userIDs, i + 1, id, old(channels)[id], channels[id], event, clock)
        {
          NotifiedNext(subscribers, userIDs, i, id, old(channels)[id], before[id], channels[id], event, clock);
        }
      }
    }

    /** The inner loop: a non-blocking send to each of `ids`, all of them open. */
    method SendAll(ids: set<nat>, event: ControlEvent)
      requires Valid() && ids <= Everyone(subscribers)
      modifies this`channels
      ensures Valid() && channels == OfferedTo(old(channels), ids, event)
    {
      var todo := ids;
      while todo != {}
        invariant todo <= ids && Valid()
        invariant channels == OfferedTo(old(channels), ids - todo, event)
        decreases todo
      {
        Inhabited(todo);
        var id :| id in todo;
        assert id in Everyone(subscribers);
        assert !channels[id].closed;
        OfferedOneMore(old(channels), ids - todo, id, event);
        assert ids - (todo - {id}) == ids - todo + {id};
        todo := todo - {id};
        channels := channels[id := channels[id].Offered(event)];
        assert channels == OfferedTo(old(channels), ids - todo, event);
        OfferKeeps(nextID, subscribers, old(channels), ids - todo, event);
      }
    }
  }

  /** The first of `userIDs` that holds the channel is at `i`. */
  ghost predicate FirstHolder(subscribers: Subscribers, userIDs: seq<int>, id: nat, i: nat) {
    && i < |userIDs| && Subscribed(subscribers, userIDs[i], id)
    && forall j :: 0 <= j < i ==> !Subscribed(subscribers, userIDs[j], id)
  }

  /** What the first `n` publishes of a notification do to one channel. */
  ghost predicate NotifiedUpTo(subscribers: Subscribers, userIDs: seq<int>, n: nat, id: nat,
                               before: Channel, after: Channel, event: ControlEvent, clock: nat -> string) {
    && (forall j: nat :: j < n && FirstHolder(subscribers, userIDs, id, j) ==> Reached(before, after, event, clock(j)))
    && (n <= |userIDs| && (forall j :: 0 <= j < n ==> !Subscribed(subscribers, userIDs[j], id)) ==> after == before)
  }

  lemma NotifiedNext(subscribers: Subscribers, userIDs: seq<int>, n: nat, id: nat, before: Channel, mid: Channel,
                     after: Channel, event: ControlEvent, clock: nat -> string)
    requires n < |userIDs| && NotifiedUpTo(subscribers, userIDs, n, id, before, mid, event, clock)
    requires if Subscribed(subscribers, userIDs[n], id) then Reached(mid, after, event, clock(n)) else after == mid
    ensures NotifiedUpTo(subscribers, userIDs, n + 1, id, before, after, event, clock)
  {
    if j: nat :| j < n && Subscribed(subscribers, userIDs[j], id) {
      var first := FirstHolderExists(subscribers, userIDs, id, j);
    }
  }

  /** A user that holds a channel among `userIDs` has a first place there. */
  lemma {:induction false} FirstHolderExists(subscribers: Subscribers, userIDs: seq<int>, id: nat, i: nat) returns (first: nat)
    requires i < |userIDs| && Subscribed(subscribers, userIDs[i], id)
    ensures FirstHolder(subscribers, userIDs, id, first)
    decreases i
  {
    if j: nat :| j < i && Subscribed(subscribers, userIDs[j], id) {
      first := FirstHolderExists(subscribers, userIDs, id, j);
    } else {
      first := i;
    }
  }

  /** A channel is open if and only if some user holds it. */
  lemma HeldExactly(nextID: nat, subscribers: Subscribers, channels: Channels)
    requires WellFormed(nextID, subscribers, channels)
    ensures forall id :: id in channels ==> (!channels[id].closed <==> exists user :: Subscribed(subscribers, user, id))
  {
    forall id | id in channels && !channels[id].closed ensures exists user :: Subscribed(subscribers, user, id) {
      assert id in Everyone(subscribers);
      var user :| user in subscribers && id in subscribers[user];
      assert Subscribed(subscribers, user, id);
    }
  }

  lemma JoinExactly(subscribers: Subscribers, user: int, id: nat)
    ensures forall u, k :: Subscribed(Joined(subscribers, user, id), u, k) <==>
                           Subscribed(subscribers, u, k) || (u == user && k == id)
  {
  }

  lemma LeaveExactly(nextID: nat, subscribers: Subscribers, channels: Channels, user: int, id: nat)
    requires WellFormed(nextID, subscribers, channels) && id in Of(subscribers, user)
    ensures forall u, k :: Subscribed(Departed(subscribers, user, id), u, k) <==> Subscribed(subscribers, u, k) && k != id
  {
    var rest := Of(subscribers, user) - {id};
    forall u, k ensures Subscribed(Departed(subscribers, user, id), u, k) <==> Subscribed(subscribers, u, k) && k != id {
      assert u == user && Subscribed(subscribers, u, k) && k != id ==> k in rest;
    }
  }

  lemma JoinKeeps(nextID: nat, subscribers: Subscribers, channels: Channels, user: int)
    requires WellFormed(nextID, subscribers, channels)
    ensures WellFormed(nextID + 1, Joined(subscribers, user, nextID + 1), channels[nextID + 1 := Channel(None, false)])
  {
    var subscribers' := Joined(subscribers, user, nextID + 1);
    assert nextID + 1 in subscribers'[user];
    assert nextID + 1 in Everyone(subscribers');
    forall id | id in channels && !channels[id].closed ensures id in Everyone(subscribers') {
      assert id in Everyone(subscribers);
      var u :| u in subscribers && id in subscribers[u];
      assert id in subscribers'[u];
    }
  }

  lemma LeaveKeeps(nextID: nat, subscribers: Subscribers, channels: Channels, user: int, id: nat)
    requires WellFormed(nextID, subscribers, channels) && id in Of(subscribers, user)
    ensures WellFormed(nextID, Departed(subscribers, user, id), channels[id := channels[id].(closed := true)])
  {
    var subscribers' := Departed(subscribers, user, id);
    forall k | k in channels && !channels[k].closed && k != id ensures k in Everyone(subscribers') {
      assert k in Everyone(subscribers);
      var u :| u in subscribers && k in subscribers[u];
      assert u == user ==> k in Of(subscribers, user) - {id};
      assert k in subscribers'[u];
    }
  }

  lemma BufferKeeps(nextID: nat, subscribers: Subscribers, channels: Channels, id: nat, buffer: Option<ControlEvent>)
    requires WellFormed(nextID, subscribers, channels) && id in channels
    ensures WellFormed(nextID, subscribers, channels[id := channels[id].(buffer := buffer)])
  {
  }

  lemma OfferedOneMore(channels: Channels, ids: set<nat>, id: nat, event: ControlEvent)
    requires id in channels
    ensures OfferedTo(channels, ids + {id}, event)
         == OfferedTo(channels, ids, event)[id := OfferedTo(channels, ids, event)[id].Offered(event)]
  {
  }

  lemma OfferKeeps(nextID: nat, subscribers: Subscribers, channels: Channels, ids: set<nat>, event: ControlEvent)
    requires WellFormed(nextID, subscribers, channels)
    ensures WellFormed(nextID, subscribers, OfferedTo(channels, ids, event))
  {
  }

  // ---------------------------------------------------------------- interleavings

  /** A publish in progress: it holds the read lock and has `remaining` channels to try.
      `version` is the authoritative state when it began, after its caller's change. */
  datatype Publisher = Publisher(event: ControlEvent, version: nat, remaining: set<nat>)

  /** A subscriber's client: the version it last fetched, the latest version it has been
      told to fetch, and whether it holds an event it has not acted on yet. */
  datatype Client = Client(view: nat, owed: nat, due: bool)

  datatype State = State(nextID: nat, subscribers: Subscribers, channels: Channels,
                         version: nat, publishers: map<nat, Publisher>, clients: map<nat, Client>,
                         sentOnClosed: bool)

  const INITIAL := State(0, map[], map[], 0, map[], map[], false)

  datatype Event =
    | Subscribe(user: int)
    | Unsubscribe(user: int, id: nat)
    | Change
    | BeginPublish(thread: nat, user: int, event: ControlEvent)
    | BeginBroadcast(thread: nat, event: ControlEvent)
    | Send(thread: nat, id: nat)
    | EndPublish(thread: nat)
    | Receive(id: nat)
    | Fetch(id: nat)

  /** The write lock waits for every publisher; a thread runs one publish at a time and
      releases the lock after its last send. A disabled event does nothing. */
  predicate Enabled(s: State, e: Event) {
    match e
    case Subscribe(_) => s.publishers == map[]
    case Unsubscribe(user, id) => s.publishers == map[] && id in Of(s.subscribers, user)
    case Change => true
    case BeginPublish(thread, _, _) => thread !in s.publishers
    case BeginBroadcast(thread, _) => thread !in s.publishers
    case Send(thread, id) => thread in s.publishers && id in s.publishers[thread].remaining
    case EndPublish(thread) => thread in s.publishers && s.publishers[thread].remaining == {}
    case Receive(id) => id in s.channels && s.channels[id].buffer.Some? && id in s.clients
    case Fetch(id) => id in s.clients
  }

  function Begun(s: State, thread: nat, event: ControlEvent, ids: set<nat>): State {
    s.(publishers := s.publishers[thread := Publisher(event, s.version, ids)])
  }

  function Sent(s: State, thread: nat, id: nat): State
    requires thread in s.publishers
  {
    var p := s.publishers[thread];
    var p' := p.(remaining := p.remaining - {id});
    var s' := s.(publishers := s.publishers[thread := p']);
    if id !in s.channels || id !in s.clients || s.channels[id].closed then s'.(sentOnClosed := true) else
      var c := s.clients[id];
      s'.(channels := s.channels[id := s.channels[id].Offered(p.event)],
          clients := s.clients[id := c.(owed := if p.version > c.owed then p.version else c.owed)])
  }

  function Step(s: State, e: Event): State {
    if !Enabled(s, e) then s else
    match e
    case Subscribe(user) =>
      var id := s.nextID + 1;
      s.(nextID := id, subscribers := Joined(s.subscribers, user, id),
         channels := s.channels[id := Channel(None, false)], clients := s.clients[id := Client(0, 0, false)])
    case Unsubscribe(user, id) =>
      if id !in s.channels then s else
      s.(subscribers := Departed(s.subscribers, user, id),
         channels := s.channels[id := s.channels[id].(closed := true)])
    case Change => s.(version := s.version + 1)
    case BeginPublish(thread, user, event) => Begun(s, thread, event, Of(s.subscribers, user))
    case BeginBroadcast(thread, event) => Begun(s, thread, event, Everyone(s.subscribers))
    case Send(thread, id) => Sent(s, thread, id)
    case EndPublish(thread) => s.(publishers := s.publishers - {thread})
    case Receive(id) =>
      s.(channels := s.channels[id := s.channels[id].(buffer := None)],
         clients := s.clients[id := s.clients[id].(due := true)])
    case Fetch(id) => s.(clients := s.clients[id := Client(s.version, s.clients[id].owed, false)])
  }

  function Run(s: State, run: seq<Event>): State
    decreases |run|
  {
    if run == [] then s else Run(Step(s, run[0]), run[1..])
  }

  /** The client has nothing to wake it: no event buffered and none in hand. */
  predicate AtRest(s: State, id: nat)
    requires id in s.channels && id in s.clients
  {
    s.channels[id].buffer.None? && !s.clients[id].due
  }

  /** Everything still to be sent goes to an open channel, and nothing went elsewhere. */
  ghost predicate SendsOpen(s: State) {
    && !s.sentOnClosed
    && (forall thread :: thread in s.publishers ==> s.publishers[thread].version <= s.version)
    && (forall thread, id :: thread in s.publishers && id in s.publishers[thread].remaining ==>
          id in s.channels && !s.channels[id].closed)
  }

  /** A client at rest has fetched at least what it was told to fetch. */
  ghost predicate ClientsTold(s: State) {
    && s.channels.Keys == s.clients.Keys
    && (forall id :: id in s.clients ==>
          s.clients[id].owed <= s.version && (AtRest(s, id) ==> s.clients[id].owed <= s.clients[id].view))
  }

  ghost predicate Invariant(s: State) {
    WellFormed(s.nextID, s.subscribers, s.channels) && SendsOpen(s) && ClientsTold(s)
  }

  lemma StepKeepsWellFormed(s: State, e: Event)
    requires Invariant(s)
    ensures WellFormed(Step(s, e).nextID, Step(s, e).subscribers, Step(s, e).channels)
  {
    if Enabled(s, e) {
      match e
      case Subscribe(user) => JoinKeeps(s.nextID, s.subscribers, s.channels, user);
      case Unsubscribe(user, id) => LeaveKeeps(s.nextID, s.subscribers, s.channels, user, id);
      case Send(thread, id) =>
        var offered := s.channels[id].Offered(s.publishers[thread].event);
        assert offered == s.channels[id].(buffer := offered.buffer);
        BufferKeeps(s.nextID, s.subscribers, s.channels, id, offered.buffer);
      case Receive(id) => BufferKeeps(s.nextID, s.subscribers, s.channels, id, None);
      case _ =>
    }
  }

  lemma StepKeepsSendsOpen(s: State, e: Event)
    requires Invariant(s)
    ensures SendsOpen(Step(s, e))
  {
  }

  lemma StepKeepsClientsTold(s: State, e: Event)
    requires Invariant(s)
    ensures ClientsTold(Step(s, e))
  {
    var s' := Step(s, e);
    assert s'.channels.Keys == s'.clients.Keys;
    forall id | id in s'.clients
      ensures s'.clients[id].owed <= s'.version && (AtRest(s', id) ==> s'.clients[id].owed <= s'.clients[id].view)
    {
    }
  }

  /** No send reaches a closed channel and no client rests on a view older than the last
      change it was told about, at any step of any interleaving. */
  lemma StepKeepsInvariant(s: State, e: Event)
    requires Invariant(s)
    ensures Invariant(Step(s, e))
  {
    StepKeepsWellFormed(s, e);
    StepKeepsSendsOpen(s, e);
    StepKeepsClientsTold(s, e);
  }

  lemma {:induction false} RunKeepsInvariant(s: State, run: seq<Event>)
    requires Invariant(s)
    ensures var end := Run(s, run);
            && Invariant(end) && !end.sentOnClosed
            && forall id :: id in end.clients ==>
                 id in end.channels && (AtRest(end, id) ==> end.clients[id].owed <= end.clients[id].view)
    decreases |run|
  {
    if run != [] {
      StepKeepsInvariant(s, run[0]);
      RunKeepsInvariant(Step(s, run[0]), run[1..]);
    }
  }

  /** Right after a send the channel holds an event, whether it was stored or dropped. */
  lemma SendFills(s: State, thread: nat, id: nat)
    requires Invariant(s) && Enabled(s, Send(thread, id))
    ensures var s' := Step(s, Send(thread, id));
            id in s'.channels && s'.channels[id].buffer.Some? && !s'.channels[id].closed
            && (s.channels[id].buffer.Some? ==> s'.channels[id] == s.channels[id])
            && (s.channels[id].buffer.None? ==> s'.channels[id].buffer == Some(s.publishers[thread].event))
            && s'.clients[id].owed >= s.publishers[thread].version
  {
  }

  /** Each of `ids` has been told of version `v`, or is still to be told by `thread`. */
  ghost predicate Told(s: State, thread: nat, ids: set<nat>, v: nat) {
    forall id :: id in ids ==>
      id in s.clients &&
      (s.clients[id].owed >= v ||
       (thread in s.publishers && id in s.publishers[thread].remaining && s.publishers[thread].version >= v))
  }

  lemma StepKeepsTold(s: State, e: Event, thread: nat, ids: set<nat>, v: nat)
    requires Invariant(s) && Told(s, thread, ids, v)
    ensures Told(Step(s, e), thread, ids, v)
  {
  }

  lemma {:induction false} RunKeepsTold(s: State, run: seq<Event>, thread: nat, ids: set<nat>, v: nat)
    requires Invariant(s) && Told(s, thread, ids, v)
    ensures Told(Run(s, run), thread, ids, v)
    decreases |run|
  {
    if run != [] {
      StepKeepsInvariant(s, run[0]);
      StepKeepsTold(s, run[0], thread, ids, v);
      RunKeepsTold(Step(s, run[0]), run[1..], thread, ids, v);
    }
  }

  function Addressed(s: State, e: Event): set<nat>
    requires e.BeginPublish? || e.BeginBroadcast?
  {
    if e.BeginPublish? then Of(s.subscribers, e.user) else Everyone(s.subscribers)
  }

  /** A publish addresses exactly the channels of its user, and a broadcast all open ones. */
  lemma AddressedExactly(s: State, e: Event, id: nat)
    requires Invariant(s) && (e.BeginPublish? || e.BeginBroadcast?)
    ensures id in Addressed(s, e) <==>
            if e.BeginPublish? then Subscribed(s.subscribers, e.user, id) else id in s.channels && !s.channels[id].closed
  {
    HeldExactly(s.nextID, s.subscribers, s.channels);
  }

  lemma BeginTells(s: State, e: Event)
    requires Invariant(s) && (e.BeginPublish? || e.BeginBroadcast?) && Enabled(s, e)
    ensures Told(Step(s, e), e.thread, Addressed(s, e), s.version)
  {
    forall id | id in Addressed(s, e) ensures id in s.clients {
      if e.BeginBroadcast? {
        var user :| user in s.subscribers && id in s.subscribers[user];
        assert id in s.channels;
      }
    }
  }

  /** Whatever is interleaved with it, once a publish or broadcast that followed a state
      change is over, every client it addressed that is at rest has fetched that change. */
  lemma PublishReachesAll(before: seq<Event>, e: Event, after: seq<Event>, id: nat)
    requires e.BeginPublish? || e.BeginBroadcast?
    requires Enabled(Run(INITIAL, before), e) && id in Addressed(Run(INITIAL, before), e)
    requires e.thread !in Run(Step(Run(INITIAL, before), e), after).publishers
    ensures var end := Run(Step(Run(INITIAL, before), e), after);
            id in end.channels && id in end.clients
            && (AtRest(end, id) ==> end.clients[id].view >= Run(INITIAL, before).version)
  {
    RunKeepsInvariant(INITIAL, before);
    var s := Run(INITIAL, before);
    StepKeepsInvariant(s, e);
    BeginTells(s, e);
    RunKeepsTold(Step(s, e), after, e.thread, Addressed(s, e), s.version);
    RunKeepsInvariant(Step(s, e), after);
  }

  function Sends(thread: nat, order: seq<nat>): seq<Event> {
    seq(|order|, i requires 0 <= i < |order| => Send(thread, order[i]))
  }

  function Members(order: seq<nat>): set<nat> {
    set id | id in order
  }

  lemma OfferedInTurn(channels: Channels, id: nat, order: seq<nat>, event: ControlEvent)
    requires id in channels && order != [] && order[0] == id
    ensures OfferedTo(channels[id := channels[id].Offered(event)], Members(order[1..]), event)
         == OfferedTo(channels, Members(order), event)
  {
    assert order == [id] + order[1..];
    forall k | k in channels ensures k in Members(order) <==> k == id || k in Members(order[1..]) {
    }
  }

  /** A publish that is not interrupted leaves the channels as the method `SendAll` does,
      whatever the order in which it visits them. */
  lemma {:induction false} UninterruptedPublish(s: State, thread: nat, order: seq<nat>)
    requires Invariant(s) && thread in s.publishers
    requires forall i :: 0 <= i < |order| ==> order[i] in s.publishers[thread].remaining
    requires forall i, j :: 0 <= i < j < |order| ==> order[i] != order[j]
    ensures Run(s, Sends(thread, order)).channels
         == OfferedTo(s.channels, Members(order), s.publishers[thread].event)
    decreases |order|
  {
    var event := s.publishers[thread].event;
    if order == [] {
      assert OfferedTo(s.channels, {}, event) == s.channels;
    } else {
      var e := Send(thread, order[0]);
      StepKeepsInvariant(s, e);
      assert Sends(thread, order)[0] == e && Sends(thread, order)[1..] == Sends(thread, order[1..]);
      assert thread in Step(s, e).publishers && Step(s, e).publishers[thread].event == event;
      UninterruptedPublish(Step(s, e), thread, order[1..]);
      OfferedInTurn(s.channels, order[0], order, event);
    }
  }
}
