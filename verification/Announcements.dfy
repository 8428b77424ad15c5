/**
 Announcement revisions, target lists and per-revision receipts
 (internal/repository/announcement.go, internal/service/announcement.go).

 Each SQL transaction is one step. A receipt call reads the revision in one step and
 writes the receipt in a later one, and a user's listing reads its rows in one step and
 marks them delivered in a later one, so edits may fall in between.
 */
module Announcements {
  import opened Options
  import opened SetFacts

  /** The columns an edit writes, apart from the target type. */
  datatype Body = Body(title: string, content: string, level: string, displayMode: string, showPolicy: string,
                       startsAt: Option<string>, endsAt: Option<string>, targetPlatform: string,
                       minVersionCode: Option<int>, maxVersionCode: Option<int>,
                       actionText: Option<string>, actionURL: Option<string>)

  datatype Draft = Draft(body: Body, targetType: string, userIDs: seq<int>)

  datatype Announcement = Announcement(body: Body, targetType: string, revision: int, published: bool)

  datatype Receipt = Receipt(delivered: Option<int>, read: Option<int>, acknowledged: Option<int>) {
    /** Acknowledged implies read, and read implies delivered. */
    predicate InOrder() {
      (acknowledged.Some? ==> read.Some?) && (read.Some? ==> delivered.Some?)
    }

    /** Every time set here is still the same in `later`. */
    predicate KeptBy(later: Receipt) {
      (delivered.Some? ==> later.delivered == delivered) && (read.Some? ==> later.read == read)
      && (acknowledged.Some? ==> later.acknowledged == acknowledged)
    }
  }

  const BLANK := Receipt(None, None, None)

  datatype Mark = Deliver | Read | Acknowledge

  datatype Key = Key(id: int, user: int, revision: int)

  type Announcements = map<int, Announcement>
  type Targets = map<int, set<int>>
  type Receipts = map<Key, Receipt>

  /** A call between its read and its write. */
  datatype Call = Call(user: int, items: seq<(int, int)>, mark: Mark)

  datatype State = State(rows: Announcements, targets: Targets, receipts: Receipts, nextID: int,
                         calls: map<nat, Call>)

  const INITIAL := State(map[], map[], map[], 1, map[])

  datatype Event =
    | Create(draft: Draft)
    | Update(id: int, draft: Draft)
    | Publish(id: int)
    | Unpublish(id: int)
    | Delete(id: int, cascades: bool)
    | BeginMark(thread: nat, id: int, user: int, mark: Mark)
    | BeginList(thread: nat, user: int, selected: seq<int>)
    | Finish(thread: nat, now: int)

  /** The users a draft is aimed at: the distinct positive ids, for a targeted one. */
  function Aimed(targetType: string, userIDs: seq<int>): set<int> {
    if targetType == "users" then set user | user in userIDs && user > 0 else {}
  }

  /** `INSERT .. ON CONFLICT .. DO UPDATE SET x = COALESCE(x, excluded.x)` */
  function Upserted(r: Receipt, mark: Mark, now: int): Receipt {
    Receipt(Coalesce(r.delivered, Some(now)),
            if mark == Deliver then r.read else Coalesce(r.read, Some(now)),
            if mark == Acknowledge then Coalesce(r.acknowledged, Some(now)) else r.acknowledged)
  }

  function Stored(receipts: Receipts, k: Key): Receipt {
    if k in receipts then receipts[k] else BLANK
  }

  function Marked(receipts: Receipts, user: int, items: seq<(int, int)>, mark: Mark, now: int): Receipts
    decreases |items|
  {
    if items == [] then receipts else
      var before := Marked(receipts, user, items[..|items| - 1], mark, now);
      var (id, revision) := items[|items| - 1];
      var k := Key(id, user, revision);
      before[k := Upserted(Stored(before, k), mark, now)]
  }

  predicate Reaches(rows: Announcements, targets: Targets, id: int, user: int) {
    id in rows && rows[id].published
    && (rows[id].targetType == "all" || (id in targets && user in targets[id]))
  }

  /** The rows of `ListForUser`, in the order of `selected`: the announcements that pass
      the caller's time, platform and version filter. */
  function Listed(rows: Announcements, targets: Targets, user: int, selected: seq<int>): seq<(int, int)>
    decreases |selected|
  {
    if selected == [] then [] else
      var id := selected[0];
      (if Reaches(rows, targets, id, user) then [(id, rows[id].revision)] else [])
      + Listed(rows, targets, user, selected[1..])
  }

  function Written(a: Announcement, d: Draft): Announcement {
    Announcement(d.body, d.targetType, if a.published then a.revision + 1 else a.revision, a.published)
  }

  function Released(a: Announcement): Announcement {
    a.(published := true, revision := if a.revision < 1 then 1 else a.revision + 1)
  }

  function ReceiptsWithout(receipts: Receipts, id: int): Receipts {
    map k | k in receipts && k.id != id :: receipts[k]
  }

  function Step(s: State, e: Event): State {
    match e
    case Create(d) =>
      s.(rows := s.rows[s.nextID := Announcement(d.body, d.targetType, 0, false)],
         targets := s.targets[s.nextID := Aimed(d.targetType, d.userIDs)], nextID := s.nextID + 1)
    case Update(id, d) =>
      if id !in s.rows then s else
      s.(rows := s.rows[id := Written(s.rows[id], d)], targets := s.targets[id := Aimed(d.targetType, d.userIDs)])
    case Publish(id) => if id !in s.rows then s else s.(rows := s.rows[id := Released(s.rows[id])])
    case Unpublish(id) => if id !in s.rows then s else s.(rows := s.rows[id := s.rows[id].(published := false)])
    case Delete(id, cascades) =>
      s.(rows := s.rows - {id},
         targets := if cascades then s.targets - {id} else s.targets,
         receipts := if cascades then ReceiptsWithout(s.receipts, id) else s.receipts)
    case BeginMark(thread, id, user, mark) =>
      if thread in s.calls || id !in s.rows then s else
      s.(calls := s.calls[thread := Call(user, [(id, s.rows[id].revision)], mark)])
    case BeginList(thread, user, selected) =>
      if thread in s.calls then s else
      s.(calls := s.calls[thread := Call(user, Listed(s.rows, s.targets, user, selected), Deliver)])
    case Finish(thread, now) =>
      if thread !in s.calls then s else
      var c := s.calls[thread];
      s.(receipts := Marked(s.receipts, c.user, c.items, c.mark, now), calls := s.calls - {thread})
  }

  function Run(s: State, run: seq<Event>): State
    decreases |run|
  {
    if run == [] then s else Run(Step(s, run[0]), run[1..])
  }

  /** The users with a receipt for the current revision that has the given time set. */
  function Counted(rows: Announcements, receipts: Receipts, id: int, mark: Mark): set<int> {
    set k | k in receipts && k.id == id && id in rows && k.revision == rows[id].revision
            && (match mark case Deliver => receipts[k].delivered.Some?
                           case Read => receipts[k].read.Some?
                           case Acknowledge => receipts[k].acknowledged.Some?) :: k.user
  }

  class AnnouncementRepo {
    var rows: Announcements
    var targets: Targets
    var receipts: Receipts
    var nextID: int

    ghost function View(): State
      reads this
    {
      State(rows, targets, receipts, nextID, map[])
    }

    constructor ()
      ensures View() == INITIAL
    {
      rows, targets, receipts, nextID := map[], map[], map[], 1;
    }

    method Create(d: Draft) returns (id: int)
      modifies this
      ensures View() == Step(old(View()), Event.Create(d)) && id == old(nextID)
    {
      id := nextID;
      nextID := nextID + 1;
      rows := rows[id := Announcement(d.body, d.targetType, 0, false)];
      ReplaceTargets(id, d.targetType, d.userIDs);
    }

    method Update(id: int, d: Draft)
      requires id in rows
      modifies this
      ensures View() == Step(old(View()), Event.Update(id, d))
    {
      var a := rows[id];
      rows := rows[id := Announcement(d.body, d.targetType, if a.published then a.revision + 1 else a.revision, a.published)];
      ReplaceTargets(id, d.targetType, d.userIDs);
    }

    /** `replaceAnnouncementTargets`: one insert per new positive id, so the primary key
        of the target table is never violated. */
    method ReplaceTargets(id: int, targetType: string, userIDs: seq<int>)
      modifies this`targets
      ensures targets == old(targets)[id := Aimed(targetType, userIDs)]
    {
      targets := targets[id := {}];
      if targetType != "users" {
        return;
      }
      var seen: set<int> := {};
      for i := 0 to |userIDs|
        invariant seen == set user | user in userIDs[..i] && user > 0
        invariant targets == old(targets)[id := seen]
      {
        assert userIDs[..i + 1] == userIDs[..i] + [userIDs[i]];
        if userIDs[i] <= 0 || userIDs[i] in seen {
          continue;
        }
        seen := seen + {userIDs[i]};
        assert userIDs[i] !in targets[id];
        targets := targets[id := targets[id] + {userIDs[i]}];
      }
      assert userIDs[..|userIDs|] == userIDs;
    }

    method Publish(id: int)
      requires id in rows
      modifies this`rows
      ensures View() == Step(old(View()), Event.Publish(id))
    {
      var a := rows[id];
      rows := rows[id := a.(published := true, revision := if a.revision < 1 then 1 else a.revision + 1)];
    }

    method Unpublish(id: int)
      requires id in rows
      modifies this`rows
      ensures View() == Step(old(View()), Event.Unpublish(id))
    {
      rows := rows[id := rows[id].(published := false)];
    }

    /** `MarkRead` and `Acknowledge`, when nothing runs between the read and the write. */
    method MarkReceipt(id: int, user: int, mark: Mark, now: int)
      requires id in rows && mark != Deliver
      modifies this`receipts
      ensures View() == Step(Step(old(View()), BeginMark(0, id, user, mark)), Finish(0, now))
    {
      var revision := rows[id].revision;
      var k := Key(id, user, revision);
      var r := Stored(receipts, k);
      assert Marked(receipts, user, [], mark, now) == receipts && [(id, revision)][..0] == [];
      receipts := receipts[k := Upserted(r, mark, now)];
    }

    /** The rows read one by one, then marked as delivered, with nothing in between. */
    method ListForUser(user: int, selected: seq<int>, now: int) returns (items: seq<(int, int)>)
      modifies this`receipts
      ensures items == Listed(rows, targets, user, selected)
      ensures View() == Step(Step(old(View()), BeginList(0, user, selected)), Finish(0, now))
    {
      items := [];
      for i := 0 to |selected|
        invariant items + Listed(rows, targets, user, selected[i..]) == Listed(rows, targets, user, selected)
        invariant receipts == old(receipts)
      {
        var id := selected[i];
        assert selected[i..][0] == id && selected[i..][1..] == selected[i + 1..];
        if Reaches(rows, targets, id, user) {
          items := items + [(id, rows[id].revision)];
        }
      }
      MarkDelivered(user, items, now);
    }

    /** `markDelivered`: one upsert per listed row. */
    method MarkDelivered(user: int, items: seq<(int, int)>, now: int)
      modifies this`receipts
      ensures receipts == Marked(old(receipts), user, items, Deliver, now)
    {
      for i := 0 to |items|
        invariant receipts == Marked(old(receipts), user, items[..i], Deliver, now)
      {
        assert items[..i + 1][..i] == items[..i];
        var k := Key(items[i].0, user, items[i].1);
        receipts := receipts[k := Upserted(Stored(receipts, k), Deliver, now)];
      }
      assert items[..|items|] == items;
    }
  }

  // ---------------------------------------------------------------- invariant

  /** A revision read or recorded for an announcement is not above its current one. */
  ghost predicate Past(s: State, id: int, revision: int) {
    id < s.nextID && (id in s.rows ==> revision <= s.rows[id].revision)
  }

  ghost predicate Invariant(s: State) {
    && (forall id :: id in s.rows ==> id < s.nextID && id in s.targets && s.rows[id].revision >= 0)
    && (forall k :: k in s.receipts ==> Past(s, k.id, k.revision) && s.receipts[k].InOrder())
    && (forall t, item :: t in s.calls && item in s.calls[t].items ==> Past(s, item.0, item.1))
  }

  lemma {:induction false} ListedPast(s: State, user: int, selected: seq<int>)
    requires Invariant(s)
    ensures forall item :: item in Listed(s.rows, s.targets, user, selected) ==> Past(s, item.0, item.1)
    decreases |selected|
  {
    if selected != [] {
      ListedPast(s, user, selected[1..]);
    }
  }

  lemma {:induction false} MarkedKeeps(receipts: Receipts, user: int, items: seq<(int, int)>, mark: Mark, now: int)
    ensures var after := Marked(receipts, user, items, mark, now);
            && (forall k :: k in receipts ==> k in after && receipts[k].KeptBy(after[k])
                                              && (receipts[k].InOrder() ==> after[k].InOrder()))
            && (forall k :: k in after && k !in receipts ==> (k.id, k.revision) in items && after[k].InOrder())
    decreases |items|
  {
    if items != [] {
      var n := |items| - 1;
      MarkedKeeps(receipts, user, items[..n], mark, now);
      assert items == items[..n] + [(items[n].0, items[n].1)];
    }
  }

  lemma FinishKeepsInvariant(s: State, thread: nat, now: int)
    requires Invariant(s) && thread in s.calls
    ensures Invariant(Step(s, Finish(thread, now)))
  {
    var c := s.calls[thread];
    MarkedKeeps(s.receipts, c.user, c.items, c.mark, now);
    forall k | k in Step(s, Finish(thread, now)).receipts ensures Past(s, k.id, k.revision) {
      if k !in s.receipts {
        assert (k.id, k.revision) in c.items;
      }
    }
  }

  lemma EditKeepsInvariant(s: State, e: Event)
    requires Invariant(s) && !e.Finish? && !e.BeginList? && !e.BeginMark?
    ensures Invariant(Step(s, e))
  {
    forall id, revision | Past(s, id, revision) ensures Past(Step(s, e), id, revision) {
    }
  }

  lemma CallKeepsInvariant(s: State, thread: nat, c: Call)
    requires Invariant(s) && forall item :: item in c.items ==> Past(s, item.0, item.1)
    ensures Invariant(s.(calls := s.calls[thread := c]))
  {
    var s' := s.(calls := s.calls[thread := c]);
    forall id, revision | Past(s, id, revision) ensures Past(s', id, revision) {
    }
  }

  lemma StepKeepsInvariant(s: State, e: Event)
    requires Invariant(s)
    ensures Invariant(Step(s, e))
  {
    match e
    case BeginMark(thread, id, user, mark) =>
      if thread !in s.calls && id in s.rows {
        CallKeepsInvariant(s, thread, Call(user, [(id, s.rows[id].revision)], mark));
      }
    case BeginList(thread, user, selected) =>
      ListedPast(s, user, selected);
      if thread !in s.calls {
        CallKeepsInvariant(s, thread, Call(user, Listed(s.rows, s.targets, user, selected), Deliver));
      }
    case Finish(thread, now) =>
      if thread in s.calls {
        FinishKeepsInvariant(s, thread, now);
      }
    case _ => EditKeepsInvariant(s, e);
  }

  lemma {:induction false} RunKeepsInvariant(s: State, run: seq<Event>)
    requires Invariant(s)
    ensures Invariant(Run(s, run))
    decreases |run|
  {
    if run != [] {
      StepKeepsInvariant(s, run[0]);
      RunKeepsInvariant(Step(s, run[0]), run[1..]);
    }
  }

  // ---------------------------------------------------------------- revisions

  /** Seen from a moment when `id` was published as `a` with targets `t`: either the
      revision has moved on, or it is the same and what is published is the same. */
  ghost predicate Since(s: State, id: int, a: Announcement, t: set<int>) {
    id < s.nextID &&
    (id in s.rows ==>
       id in s.targets &&
       (s.rows[id].revision > a.revision ||
        (s.rows[id].revision == a.revision && (s.rows[id].published ==> s.rows[id] == a && s.targets[id] == t))))
  }

  lemma StepKeepsSince(s: State, e: Event, id: int, a: Announcement, t: set<int>)
    requires Invariant(s) && Since(s, id, a, t) && a.published
    ensures Since(Step(s, e), id, a, t)
  {
  }

  lemma {:induction false} RunKeepsSince(s: State, run: seq<Event>, id: int, a: Announcement, t: set<int>)
    requires Invariant(s) && Since(s, id, a, t) && a.published
    ensures Since(Run(s, run), id, a, t)
    decreases |run|
  {
    if run != [] {
      StepKeepsInvariant(s, run[0]);
      StepKeepsSince(s, run[0], id, a, t);
      RunKeepsSince(Step(s, run[0]), run[1..], id, a, t);
    }
  }

  /** At any two moments when an announcement is published with the same revision, its
      contents and its targets are the same. */
  lemma SameRevisionSameContent(before: seq<Event>, after: seq<Event>, id: int)
    ensures var first := Run(INITIAL, before);
            var second := Run(first, after);
            id in first.rows && id in second.rows && first.rows[id].published && second.rows[id].published
            && first.rows[id].revision == second.rows[id].revision
            ==> id in first.targets && id in second.targets
                && first.rows[id] == second.rows[id] && first.targets[id] == second.targets[id]
  {
    RunKeepsInvariant(INITIAL, before);
    var first := Run(INITIAL, before);
    if id in first.rows && first.rows[id].published {
      RunKeepsSince(first, after, id, first.rows[id], first.targets[id]);
    }
  }

  /** The stored targets of every announcement are those of its last write. */
  lemma TargetsAsGiven(s: State, id: int, d: Draft, user: int)
    requires id in s.rows
    ensures user in Step(s, Update(id, d)).targets[id] <==> d.targetType == "users" && user > 0 && user in d.userIDs
    ensures user in Step(s, Create(d)).targets[s.nextID] <==> d.targetType == "users" && user > 0 && user in d.userIDs
  {
  }

  /** After every publish, and after every edit while published, nobody has a receipt for
      the new revision, whatever receipt calls are still in flight. */
  lemma NewRevisionUnread(run: seq<Event>, e: Event, user: int)
    requires e.Publish? || e.Update?
    requires var s := Run(INITIAL, run);
             e.id in s.rows && (e.Update? ==> s.rows[e.id].published)
    ensures var s := Run(INITIAL, run);
            var s' := Step(s, e);
            && s'.rows[e.id].published && s'.rows[e.id].revision > s.rows[e.id].revision
            && Key(e.id, user, s'.rows[e.id].revision) !in s'.receipts
            && forall t :: t in s'.calls ==> (e.id, s'.rows[e.id].revision) !in s'.calls[t].items
  {
    RunKeepsInvariant(INITIAL, run);
  }

  // ---------------------------------------------------------------- receipts

  lemma StepKeepsReceipt(s: State, e: Event, k: Key)
    requires k in s.receipts && k.id in Step(s, e).rows && k.id in s.rows
    ensures k in Step(s, e).receipts && s.receipts[k].KeptBy(Step(s, e).receipts[k])
  {
    if e.Finish? && e.thread in s.calls {
      var c := s.calls[e.thread];
      MarkedKeeps(s.receipts, c.user, c.items, c.mark, e.now);
    }
  }

  lemma {:induction false} DeletedForGood(s: State, run: seq<Event>, id: int)
    requires id !in s.rows && id < s.nextID
    ensures id !in Run(s, run).rows
    decreases |run|
  {
    if run != [] {
      DeletedForGood(Step(s, run[0]), run[1..], id);
    }
  }

  /** As long as its announcement exists a receipt is never removed and a time once set
      never changes; acknowledged implies read, and read implies delivered. */
  lemma {:induction false} ReceiptsOnlyGrow(s: State, run: seq<Event>, k: Key)
    requires Invariant(s) && k in s.receipts && k.id in s.rows && k.id in Run(s, run).rows
    ensures var end := Run(s, run);
            k in end.receipts && s.receipts[k].KeptBy(end.receipts[k]) && end.receipts[k].InOrder()
    decreases |run|
  {
    if run != [] {
      var s' := Step(s, run[0]);
      StepKeepsInvariant(s, run[0]);
      if k.id !in s'.rows {
        DeletedForGood(s', run[1..], k.id);
      }
      StepKeepsReceipt(s, run[0], k);
      ReceiptsOnlyGrow(s', run[1..], k);
    }
  }

  /** The counts shown to administrators: acknowledged <= read <= delivered. */
  lemma CountsInOrder(run: seq<Event>, id: int)
    ensures var s := Run(INITIAL, run);
            |Counted(s.rows, s.receipts, id, Acknowledge)| <= |Counted(s.rows, s.receipts, id, Read)|
            <= |Counted(s.rows, s.receipts, id, Deliver)|
  {
    RunKeepsInvariant(INITIAL, run);
    var s := Run(INITIAL, run);
    SubsetSize(Counted(s.rows, s.receipts, id, Acknowledge), Counted(s.rows, s.receipts, id, Read));
    SubsetSize(Counted(s.rows, s.receipts, id, Read), Counted(s.rows, s.receipts, id, Deliver));
  }

  // ---------------------------------------------------------------- every step exactly

  /** All rows but that of `id` are the same in `after`. */
  ghost predicate OthersKept<T>(before: map<int, T>, after: map<int, T>, id: int) {
    forall k :: k != id ==> (k in after <==> k in before) && (k in after ==> after[k] == before[k])
  }

  /** The columns of an edit are stored as given; whether it is published stays, and the
      revision rises by one exactly if it is. Nothing else changes. */
  lemma UpdateExactly(s: State, id: int, d: Draft)
    requires id in s.rows
    ensures var s' := Step(s, Update(id, d));
            && id in s'.rows && OthersKept(s.rows, s'.rows, id) && OthersKept(s.targets, s'.targets, id)
            && s'.rows[id].body == d.body && s'.rows[id].targetType == d.targetType
            && s'.rows[id].published == s.rows[id].published
            && s'.rows[id].revision == s.rows[id].revision + (if s.rows[id].published then 1 else 0)
            && s' == s.(rows := s'.rows, targets := s'.targets)
  {
  }

  /** A new announcement is stored as given, unpublished, at revision 0, under the next id. */
  lemma CreateExactly(s: State, d: Draft)
    ensures var s' := Step(s, Create(d));
            && s.nextID in s'.rows && OthersKept(s.rows, s'.rows, s.nextID) && OthersKept(s.targets, s'.targets, s.nextID)
            && s'.rows[s.nextID] == Announcement(d.body, d.targetType, 0, false)
            && s' == s.(rows := s'.rows, targets := s'.targets, nextID := s.nextID + 1)
  {
  }

  /** Publishing sets the flag and raises the revision by one, and unpublishing clears the
      flag; the text, the targets and every other row stay. */
  lemma PublishExactly(s: State, id: int)
    requires Invariant(s) && id in s.rows
    ensures var s' := Step(s, Publish(id));
            && id in s'.rows && OthersKept(s.rows, s'.rows, id) && s' == s.(rows := s'.rows)
            && s'.rows[id] == s.rows[id].(published := true, revision := s.rows[id].revision + 1)
    ensures var s' := Step(s, Unpublish(id));
            && id in s'.rows && OthersKept(s.rows, s'.rows, id) && s' == s.(rows := s'.rows)
            && s'.rows[id] == s.rows[id].(published := false)
  {
  }

  /** A listing shows an announcement if and only if the filter passes it, it is published
      and it is for all or for this user, and shows its current revision. */
  lemma {:induction false} ListedExactly(rows: Announcements, targets: Targets, user: int, selected: seq<int>,
                                         id: int, revision: int)
    ensures (id, revision) in Listed(rows, targets, user, selected) <==>
            && id in selected && id in rows && rows[id].published && revision == rows[id].revision
            && (rows[id].targetType == "all" || (id in targets && user in targets[id]))
    decreases |selected|
  {
    if selected != [] {
      ListedExactly(rows, targets, user, selected[1..], id, revision);
      assert selected == [selected[0]] + selected[1..];
    }
  }

  /** A time is set to `now` if it is to be marked and not set yet, and kept otherwise. */
  predicate TimeAfter(before: Option<int>, after: Option<int>, marked: bool, now: int) {
    after == if marked && before.None? then Some(now) else before
  }

  ghost predicate ReceiptAfter(before: Receipts, after: Receipts, k: Key, mark: Mark, now: int) {
    var r := if k in before then before[k] else Receipt(None, None, None);
    && k in after
    && TimeAfter(r.delivered, after[k].delivered, true, now)
    && TimeAfter(r.read, after[k].read, mark == Read || mark == Acknowledge, now)
    && TimeAfter(r.acknowledged, after[k].acknowledged, mark == Acknowledge, now)
  }

  lemma {:induction false} MarkedExactly(receipts: Receipts, user: int, items: seq<(int, int)>, mark: Mark, now: int, k: Key)
    ensures var after := Marked(receipts, user, items, mark, now);
            if k.user == user && (k.id, k.revision) in items then ReceiptAfter(receipts, after, k, mark, now)
            else (k in after <==> k in receipts) && (k in after ==> after[k] == receipts[k])
    decreases |items|
  {
    if items != [] {
      var n := |items| - 1;
      MarkedExactly(receipts, user, items[..n], mark, now, k);
      assert items == items[..n] + [(items[n].0, items[n].1)];
    }
  }

  /** A call that finishes leaves a receipt for each of its items with the marked times set:
      the earlier time if there was one, else its own. A delivery leaves the other two times
      alone and a read leaves the acknowledgement; all other receipts stay as they were. */
  lemma FinishExactly(s: State, thread: nat, now: int, k: Key)
    requires thread in s.calls
    ensures var c, s' := s.calls[thread], Step(s, Finish(thread, now));
            && s' == s.(receipts := s'.receipts, calls := s.calls - {thread})
            && (if k.user == c.user && (k.id, k.revision) in c.items
                then ReceiptAfter(s.receipts, s'.receipts, k, c.mark, now)
                else (k in s'.receipts <==> k in s.receipts) && (k in s'.receipts ==> s'.receipts[k] == s.receipts[k]))
  {
    MarkedExactly(s.receipts, s.calls[thread].user, s.calls[thread].items, s.calls[thread].mark, now, k);
  }

  predicate TimeSet(r: Receipt, mark: Mark) {
    match mark case Deliver => r.delivered.Some? case Read => r.read.Some? case Acknowledge => r.acknowledged.Some?
  }

  lemma CountedExactly(rows: Announcements, receipts: Receipts, id: int, mark: Mark, user: int)
    requires id in rows
    ensures var k := Key(id, user, rows[id].revision);
            user in Counted(rows, receipts, id, mark) <==> k in receipts && TimeSet(receipts[k], mark)
  {
    var k := Key(id, user, rows[id].revision);
    if k in receipts && TimeSet(receipts[k], mark) {
      assert k.user in Counted(rows, receipts, id, mark);
    }
  }

  // ---------------------------------------------------------------- what a run makes of its steps

  lemma {:induction false} CallWaits(s: State, run: seq<Event>, thread: nat)
    requires thread in s.calls && forall e :: e in run ==> !(e.Finish? && e.thread == thread)
    ensures thread in Run(s, run).calls && Run(s, run).calls[thread] == s.calls[thread]
    decreases |run|
  {
    if run != [] {
      assert run[0] in run;
      CallWaits(Step(s, run[0]), run[1..], thread);
    }
  }

  lemma FinishedStaysCounted(s: State, thread: nat, now: int, after: seq<Event>, id: int, revision: int)
    requires Invariant(s) && thread in s.calls && (id, revision) in s.calls[thread].items
    ensures var c, end := s.calls[thread], Run(Step(s, Finish(thread, now)), after);
            id in end.rows && end.rows[id].revision == revision ==> c.user in Counted(end.rows, end.receipts, id, c.mark)
  {
    var c, s' := s.calls[thread], Step(s, Finish(thread, now));
    var k, end := Key(id, c.user, revision), Run(s', after);
    StepKeepsInvariant(s, Finish(thread, now));
    FinishExactly(s, thread, now, k);
    if id in end.rows && end.rows[id].revision == revision {
      if id !in s'.rows {
        DeletedForGood(s', after, id);
      }
      ReceiptsOnlyGrow(s', after, k);
      CountedExactly(end.rows, end.receipts, id, c.mark, c.user);
    }
  }

  /** A user who reads or acknowledges is counted as such, whatever runs between the call's
      read and its write and whatever comes later, for as long as the revision stands. */
  lemma MarkIsCounted(before: seq<Event>, s: State, thread: nat, id: int, user: int, mark: Mark,
                      between: seq<Event>, now: int, after: seq<Event>)
    requires s == Run(INITIAL, before) && id in s.rows && thread !in s.calls
    requires forall e :: e in between ==> !(e.Finish? && e.thread == thread)
    ensures var end := Run(Step(Run(Step(s, BeginMark(thread, id, user, mark)), between), Finish(thread, now)), after);
            id in end.rows && end.rows[id].revision == s.rows[id].revision ==>
              user in Counted(end.rows, end.receipts, id, mark)
  {
    RunKeepsInvariant(INITIAL, before);
    var begun := Step(s, BeginMark(thread, id, user, mark));
    StepKeepsInvariant(s, BeginMark(thread, id, user, mark));
    RunKeepsInvariant(begun, between);
    CallWaits(begun, between, thread);
    assert (id, s.rows[id].revision) in begun.calls[thread].items;
    FinishedStaysCounted(Run(begun, between), thread, now, after, id, s.rows[id].revision);
  }

  /** The same for a listing: everything it showed counts as delivered. */
  lemma ListingIsCounted(before: seq<Event>, s: State, thread: nat, user: int, selected: seq<int>,
                         between: seq<Event>, now: int, after: seq<Event>, id: int)
    requires s == Run(INITIAL, before) && thread !in s.calls
    requires id in selected && Reaches(s.rows, s.targets, id, user)
    requires forall e :: e in between ==> !(e.Finish? && e.thread == thread)
    ensures var end := Run(Step(Run(Step(s, BeginList(thread, user, selected)), between), Finish(thread, now)), after);
            id in end.rows && end.rows[id].revision == s.rows[id].revision ==>
              user in Counted(end.rows, end.receipts, id, Deliver)
  {
    RunKeepsInvariant(INITIAL, before);
    var begun := Step(s, BeginList(thread, user, selected));
    StepKeepsInvariant(s, BeginList(thread, user, selected));
    RunKeepsInvariant(begun, between);
    CallWaits(begun, between, thread);
    ListedExactly(s.rows, s.targets, user, selected, id, s.rows[id].revision);
    FinishedStaysCounted(Run(begun, between), thread, now, after, id, s.rows[id].revision);
  }

  /** The run has a call of the user to mark the announcement. */
  ghost predicate Asked(run: seq<Event>, id: int, user: int, mark: Mark) {
    exists e :: e in run && e.BeginMark? && e.id == id && e.user == user && e.mark == mark
  }

  lemma AskedLater(run: seq<Event>, e: Event, id: int, user: int, mark: Mark)
    ensures Asked(run + [e], id, user, mark) <==>
            Asked(run, id, user, mark) || (e.BeginMark? && e.id == id && e.user == user && e.mark == mark)
  {
    assert e in run + [e];
    forall x | x in run ensures x in run + [e] {
    }
  }

  /** Every time of a receipt, and every call in flight, goes back to a call of its user. */
  ghost predicate Justified(s: State, past: seq<Event>) {
    && (forall k :: k in s.receipts && s.receipts[k].acknowledged.Some? ==> Asked(past, k.id, k.user, Acknowledge))
    && (forall k :: k in s.receipts && s.receipts[k].read.Some? ==>
          Asked(past, k.id, k.user, Read) || Asked(past, k.id, k.user, Acknowledge))
    && (forall t, item :: t in s.calls && item in s.calls[t].items && s.calls[t].mark != Deliver ==>
          Asked(past, item.0, s.calls[t].user, s.calls[t].mark))
  }

  lemma StepJustified(s: State, past: seq<Event>, e: Event)
    requires Justified(s, past)
    ensures Justified(Step(s, e), past + [e])
  {
    var s' := Step(s, e);
    forall id, user, mark | Asked(past, id, user, mark) ensures Asked(past + [e], id, user, mark) {
      AskedLater(past, e, id, user, mark);
    }
    if e.BeginMark? {
      AskedLater(past, e, e.id, e.user, e.mark);
    }
    if e.Finish? && e.thread in s.calls {
      forall k | k in s'.receipts
        ensures s'.receipts[k].acknowledged.Some? ==> Asked(past, k.id, k.user, Acknowledge)
        ensures s'.receipts[k].read.Some? ==> Asked(past, k.id, k.user, Read) || Asked(past, k.id, k.user, Acknowledge)
      {
        FinishExactly(s, e.thread, e.now, k);
      }
    }
  }

  lemma {:induction false} RunJustified(s: State, past: seq<Event>, run: seq<Event>)
    requires Justified(s, past)
    ensures Justified(Run(s, run), past + run)
    decreases |run|
  {
    if run == [] {
      assert past + run == past;
    } else {
      StepJustified(s, past, run[0]);
      RunJustified(Step(s, run[0]), past + [run[0]], run[1..]);
      assert past + [run[0]] + run[1..] == past + run;
    }
  }

  /** Nobody is counted as having acknowledged, or read, without having made that call. */
  lemma CountedOnlyIfAsked(run: seq<Event>, id: int, user: int)
    ensures var s := Run(INITIAL, run);
            && (user in Counted(s.rows, s.receipts, id, Acknowledge) ==> Asked(run, id, user, Acknowledge))
            && (user in Counted(s.rows, s.receipts, id, Read) ==>
                  Asked(run, id, user, Read) || Asked(run, id, user, Acknowledge))
  {
    RunJustified(INITIAL, [], run);
    assert [] + run == run;
  }

  /** What was written last stands: until the next edit of it or its deletion an
      announcement has the text and the targets given. */
  lemma {:induction false} LastWriteStands(s: State, run: seq<Event>, id: int)
    requires id in s.rows && id < s.nextID
    requires forall e :: e in run ==> !(e.Update? && e.id == id) && !(e.Delete? && e.id == id)
    ensures var end := Run(s, run);
            && id in end.rows && end.rows[id].body == s.rows[id].body && end.rows[id].targetType == s.rows[id].targetType
            && (id in end.targets <==> id in s.targets) && (id in s.targets ==> end.targets[id] == s.targets[id])
    decreases |run|
  {
    if run != [] {
      assert run[0] in run;
      LastWriteStands(Step(s, run[0]), run[1..], id);
    }
  }

  /** Once unpublished, an announcement is shown to nobody until it is published again. */
  lemma {:induction false} UnpublishedStaysHidden(s: State, run: seq<Event>, id: int, user: int)
    requires id < s.nextID && (id in s.rows ==> !s.rows[id].published)
    requires forall e :: e in run ==> !(e.Publish? && e.id == id)
    ensures !Reaches(Run(s, run).rows, Run(s, run).targets, id, user)
    decreases |run|
  {
    if run != [] {
      assert run[0] in run;
      UnpublishedStaysHidden(Step(s, run[0]), run[1..], id, user);
    }
  }
}
