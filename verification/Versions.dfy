/**
 Application releases and the per-platform "latest" flag
 (internal/repository/version.go, internal/service/version.go).
 */
module Versions {
  import opened Options
  import opened SetFacts

  datatype AppVersion = AppVersion(platform: string, code: int, name: string, title: string,
                                   description: Option<string>, downloadURL: Option<string>,
                                   fileHash: Option<string>, fileSize: Option<int>,
                                   isForce: bool, isLatest: bool)

  /** A partial edit: only the fields given are written. */
  datatype Edit = Edit(title: Option<string>, description: Option<string>, downloadURL: Option<string>,
                       fileHash: Option<string>, fileSize: Option<int>,
                       isForce: Option<bool>, isLatest: Option<bool>)

  type Rows = map<int, AppVersion>

  /** `app_versions`, with the next id that AUTOINCREMENT hands out. */
  datatype Table = Table(rows: Rows, nextID: int)

  datatype Event = Create(v: AppVersion) | Update(id: int, edit: Edit) | Delete(id: int)

  function Given<T>(field: Option<T>, stored: T): T {
    if field.Some? then field.value else stored
  }

  function Edited(v: AppVersion, e: Edit): AppVersion {
    v.(title := Given(e.title, v.title), description := Coalesce(e.description, v.description),
       downloadURL := Coalesce(e.downloadURL, v.downloadURL), fileHash := Coalesce(e.fileHash, v.fileHash),
       fileSize := Coalesce(e.fileSize, v.fileSize),
       isForce := Given(e.isForce, v.isForce), isLatest := Given(e.isLatest, v.isLatest))
  }

  /** `UPDATE app_versions SET is_latest = 0 WHERE platform = ?` */
  function Unflagged(rows: Rows, platform: string): Rows {
    map id | id in rows :: if rows[id].platform == platform then rows[id].(isLatest := false) else rows[id]
  }

  predicate Taken(rows: Rows, platform: string, code: int) {
    exists id :: id in rows && rows[id].platform == platform && rows[id].code == code
  }

  /** `id` is a row that `ORDER BY version_code DESC LIMIT 1` may return among `ids`. */
  predicate IsGreatest(rows: Rows, ids: set<int>, id: int)
    requires ids <= rows.Keys
  {
    id in ids && forall other :: other in ids ==> rows[other].code <= rows[id].code
  }

  lemma {:induction false} GreatestExists(rows: Rows, ids: set<int>)
    requires ids <= rows.Keys && ids != {}
    ensures exists id :: IsGreatest(rows, ids, id)
    decreases |ids|
  {
    Inhabited(ids);
    var id :| id in ids;
    if ids == {id} {
      assert IsGreatest(rows, ids, id);
    } else {
      GreatestExists(rows, ids - {id});
      var top :| IsGreatest(rows, ids - {id}, top);
      assert IsGreatest(rows, ids, if rows[id].code > rows[top].code then id else top);
    }
  }

  ghost function Greatest(rows: Rows, ids: set<int>): (id: int)
    requires ids <= rows.Keys && ids != {}
    ensures IsGreatest(rows, ids, id)
  {
    GreatestExists(rows, ids);
    var id :| IsGreatest(rows, ids, id);
    id
  }

  function OfPlatform(rows: Rows, platform: string): set<int> {
    set id | id in rows && rows[id].platform == platform
  }

  function Flagged(rows: Rows, platform: string): set<int> {
    set id | id in rows && rows[id].platform == platform && rows[id].isLatest
  }

  ghost function Step(t: Table, e: Event): Table {
    match e
    case Create(v) =>
      if Taken(t.rows, v.platform, v.code) then t
      else Table(Unflagged(t.rows, v.platform)[t.nextID := v.(isLatest := true)], t.nextID + 1)
    case Update(id, edit) =>
      if id !in t.rows then t
      else if edit.isLatest == Some(true) then
        t.(rows := Unflagged(t.rows, t.rows[id].platform)[id := Edited(t.rows[id], edit)])
      else t.(rows := t.rows[id := Edited(t.rows[id], edit)])
    case Delete(id) => if id !in t.rows then t else t.(rows := Deleted(t.rows, id))
  }

  ghost function Deleted(rows: Rows, id: int): Rows
    requires id in rows
  {
    var rest := rows - {id};
    var peers := OfPlatform(rest, rows[id].platform);
    if rows[id].isLatest && peers != {} then
      var top := Greatest(rest, peers);
      rest[top := rest[top].(isLatest := true)]
    else rest
  }

  /** What `FindLatest` selects. */
  ghost function FindLatest(rows: Rows, platform: string): Option<int> {
    if Flagged(rows, platform) == {} then None else Some(Greatest(rows, Flagged(rows, platform)))
  }

  ghost predicate Valid(t: Table) {
    && (forall id :: id in t.rows ==> id < t.nextID)
    && (forall a, b :: a in t.rows && b in t.rows && a != b ==>
          t.rows[a].platform != t.rows[b].platform || t.rows[a].code != t.rows[b].code)
    && (forall a, b :: a in t.rows && b in t.rows && a != b && t.rows[a].isLatest && t.rows[b].isLatest ==>
          t.rows[a].platform != t.rows[b].platform)
  }

  class VersionRepo {
    var rows: Rows
    var nextID: int

    ghost function View(): Table
      reads this
    {
      Table(rows, nextID)
    }

    constructor ()
      ensures View() == Table(map[], 1)
    {
      rows, nextID := map[], 1;
    }

    method Create(v: AppVersion) returns (id: Option<int>)
      modifies this
      ensures View() == Step(old(View()), Event.Create(v))
      ensures id == if Taken(old(rows), v.platform, v.code) then None else Some(old(nextID))
    {
      if Taken(rows, v.platform, v.code) {
        return None;
      }
      id := Some(nextID);
      rows := Unflagged(rows, v.platform)[nextID := v.(isLatest := true)];
      nextID := nextID + 1;
    }

    /** The service's lookup followed by the repository's write. */
    method Update(id: int, edit: Edit) returns (found: bool)
      modifies this
      ensures View() == Step(old(View()), Event.Update(id, edit))
      ensures found <==> id in old(rows)
    {
      found := id in rows;
      if !found {
        return;
      }
      if edit == Edit(None, None, None, None, None, None, None) {
        assert rows[id := rows[id]] == rows;
        return;
      }
      var v := rows[id];
      v := v.(title := Given(edit.title, v.title));
      v := v.(description := Coalesce(edit.description, v.description));
      v := v.(downloadURL := Coalesce(edit.downloadURL, v.downloadURL));
      v := v.(fileHash := Coalesce(edit.fileHash, v.fileHash));
      v := v.(fileSize := Coalesce(edit.fileSize, v.fileSize));
      v := v.(isForce := Given(edit.isForce, v.isForce));
      v := v.(isLatest := Given(edit.isLatest, v.isLatest));
      if edit.isLatest == Some(true) {
        rows := Unflagged(rows, rows[id].platform);
      }
      rows := rows[id := v];
    }

    method Delete(id: int) returns (found: bool)
      requires Valid(View())
      modifies this
      ensures View() == Step(old(View()), Event.Delete(id))
      ensures found <==> id in old(rows)
    {
      found := id in rows;
      if !found {
        return;
      }
      var platform, wasLatest := rows[id].platform, rows[id].isLatest;
      rows := rows - {id};
      var peers := OfPlatform(rows, platform);
      if wasLatest && peers != {} {
        GreatestExists(rows, peers);
        var top :| top in peers && IsGreatest(rows, peers, top);
        rows := rows[top := rows[top].(isLatest := true)];
      }
    }

    /** `CheckLatest`: the row to offer a client that runs `current`, if any. */
    method CheckLatest(platform: string, current: int) returns (offer: Option<int>)
      requires Valid(View())
      ensures var latest := FindLatest(rows, platform);
              offer == if latest.Some? && rows[latest.value].code > current then latest else None
      ensures offer.None? <==> forall id :: id in rows && rows[id].platform == platform && rows[id].isLatest ==>
                                            rows[id].code <= current
    {
      var flagged := Flagged(rows, platform);
      if flagged == {} {
        assert forall id :: id in rows && rows[id].platform == platform && rows[id].isLatest ==> id in flagged;
        return None;
      }
      GreatestExists(rows, flagged);
      var top :| top in flagged && IsGreatest(rows, flagged, top);
      offer := if rows[top].code > current then Some(top) else None;
    }
  }

  // ---------------------------------------------------------------- runs

  ghost function Run(t: Table, run: seq<Event>): Table
    decreases |run|
  {
    if run == [] then t else Step(Run(t, run[..|run| - 1]), run[|run| - 1])
  }

  /** An edit took the flag from the platform's latest row, and nothing has set it since. */
  ghost predicate Cleared(t: Table, run: seq<Event>, platform: string)
    decreases |run|
  {
    run != [] &&
    var before := Run(t, run[..|run| - 1]);
    var was := Cleared(t, run[..|run| - 1], platform);
    match run[|run| - 1]
    case Create(v) => was && (v.platform != platform || Taken(before.rows, platform, v.code))
    case Update(id, edit) =>
      if id !in before.rows || before.rows[id].platform != platform || edit.isLatest.None? then was
      else !edit.isLatest.value && (was || before.rows[id].isLatest)
    case Delete(_) => was
  }

  lemma CreateKeepsValid(t: Table, v: AppVersion)
    requires Valid(t)
    ensures Valid(Step(t, Create(v)))
  {
  }

  lemma UpdateKeepsValid(t: Table, id: int, edit: Edit)
    requires Valid(t)
    ensures Valid(Step(t, Update(id, edit)))
  {
    if id in t.rows && edit.isLatest != Some(true) {
      var v := Edited(t.rows[id], edit);
      assert v.platform == t.rows[id].platform && v.code == t.rows[id].code && (v.isLatest ==> t.rows[id].isLatest);
    }
  }

  lemma DeleteKeepsValid(t: Table, id: int)
    requires Valid(t)
    ensures Valid(Step(t, Delete(id)))
  {
  }

  lemma StepKeepsValid(t: Table, e: Event)
    requires Valid(t)
    ensures Valid(Step(t, e))
  {
    match e
    case Create(v) => CreateKeepsValid(t, v);
    case Update(id, edit) => UpdateKeepsValid(t, id, edit);
    case Delete(id) => DeleteKeepsValid(t, id);
  }

  /** In every reachable table each platform has at most one latest row, and a platform
      that has rows has exactly one if and only if no edit has left it cleared. */
  lemma {:induction false} LatestFlag(run: seq<Event>, platform: string)
    ensures var t := Run(Table(map[], 1), run);
            && Valid(t)
            && |Flagged(t.rows, platform)| <= 1
            && (OfPlatform(t.rows, platform) != {} ==>
                  (|Flagged(t.rows, platform)| == 1 <==> !Cleared(Table(map[], 1), run, platform)))
    decreases |run|
  {
    var t := Run(Table(map[], 1), run);
    if run != [] {
      var before := Run(Table(map[], 1), run[..|run| - 1]);
      LatestFlag(run[..|run| - 1], platform);
      StepKeepsValid(before, run[|run| - 1]);
      AtMostOne(before, platform);
      StepFlag(before, run[|run| - 1], platform);
    }
    AtMostOne(t, platform);
  }

  /** How one step moves a platform between flagged and unflagged. */
  lemma StepFlag(t: Table, e: Event, platform: string)
    requires Valid(t)
    ensures var rows' := Step(t, e).rows;
            var was, now := Flagged(t.rows, platform) != {}, Flagged(rows', platform) != {};
            match e
            case Create(v) => now == (was || (v.platform == platform && !Taken(t.rows, platform, v.code)))
            case Update(id, edit) =>
              if id !in t.rows || t.rows[id].platform != platform || edit.isLatest.None? then now == was
              else now == (edit.isLatest.value || (was && !t.rows[id].isLatest))
            case Delete(_) => OfPlatform(rows', platform) != {} ==> now == was
  {
    match e
    case Create(v) => CreateFlag(t, v, platform);
    case Update(id, edit) =>
      UpdateFlag(t, id, edit, platform);
      if id in t.rows && t.rows[id].platform == platform {
        var others := Flagged(t.rows, platform) - {id};
        if t.rows[id].isLatest {
          FlaggedBy(t.rows, platform, id);
          if others != {} {
            Inhabited(others);
          }
        } else {
          assert others == Flagged(t.rows, platform);
        }
      }
    case Delete(id) => DeleteFlag(t, id, platform);
  }

  lemma AtMostOne(t: Table, platform: string)
    requires Valid(t)
    ensures |Flagged(t.rows, platform)| <= 1
  {
    var flagged := Flagged(t.rows, platform);
    if flagged != {} {
      Inhabited(flagged);
      var id :| id in flagged;
      var others := flagged - {id};
      if others != {} {
        Inhabited(others);
      }
      assert |flagged| == |others| + 1;
    }
  }

  lemma FlaggedBy(rows: Rows, platform: string, id: int)
    requires id in rows && rows[id].platform == platform && rows[id].isLatest
    ensures Flagged(rows, platform) != {}
  {
    assert id in Flagged(rows, platform);
  }

  lemma CreateFlag(t: Table, v: AppVersion, platform: string)
    requires Valid(t)
    ensures var rows' := Step(t, Create(v)).rows;
            if v.platform == platform && !Taken(t.rows, platform, v.code) then Flagged(rows', platform) != {}
            else Flagged(rows', platform) == Flagged(t.rows, platform)
  {
    if !Taken(t.rows, v.platform, v.code) && v.platform == platform {
      FlaggedBy(Step(t, Create(v)).rows, platform, t.nextID);
    }
  }

  lemma UpdateFlag(t: Table, id: int, edit: Edit, platform: string)
    requires Valid(t)
    ensures var rows' := Step(t, Update(id, edit)).rows;
            if id !in t.rows || t.rows[id].platform != platform || edit.isLatest.None?
            then Flagged(rows', platform) == Flagged(t.rows, platform)
            else if edit.isLatest.value then Flagged(rows', platform) != {}
            else Flagged(rows', platform) == Flagged(t.rows, platform) - {id}
  {
    if id in t.rows && t.rows[id].platform == platform && edit.isLatest == Some(true) {
      FlaggedBy(Step(t, Update(id, edit)).rows, platform, id);
    }
  }

  lemma DeleteFlag(t: Table, id: int, platform: string)
    requires Valid(t)
    ensures var rows' := Step(t, Delete(id)).rows;
            OfPlatform(rows', platform) != {} ==>
              (Flagged(rows', platform) != {} <==> Flagged(t.rows, platform) != {})
  {
    var rows' := Step(t, Delete(id)).rows;
    if id in t.rows && t.rows[id].platform == platform && t.rows[id].isLatest {
      var peers := OfPlatform(t.rows - {id}, platform);
      FlaggedBy(t.rows, platform, id);
      if peers != {} {
        FlaggedBy(rows', platform, Greatest(t.rows - {id}, peers));
      } else {
        assert OfPlatform(rows', platform) == peers;
      }
    } else {
      assert Flagged(rows', platform) == Flagged(t.rows, platform);
    }
  }

  /** Runs in which no edit asks to clear the flag keep exactly one latest row. */
  lemma {:induction false} NeverCleared(run: seq<Event>, platform: string)
    requires forall e :: e in run && e.Update? ==> e.edit.isLatest != Some(false)
    ensures !Cleared(Table(map[], 1), run, platform)
    decreases |run|
  {
    if run != [] {
      assert run[|run| - 1] in run;
      NeverCleared(run[..|run| - 1], platform);
    }
  }

  /** Deleting the latest row makes the greatest remaining version code the latest, and
      that is the row `FindLatest` then returns. */
  lemma DeletePromotes(t: Table, id: int, top: int)
    requires Valid(t) && id in t.rows && t.rows[id].isLatest
    requires IsGreatest(t.rows, OfPlatform(t.rows, t.rows[id].platform) - {id}, top)
    ensures FindLatest(Step(t, Delete(id)).rows, t.rows[id].platform) == Some(top)
    ensures Step(t, Delete(id)).rows == (t.rows - {id})[top := t.rows[top].(isLatest := true)]
  {
    var platform := t.rows[id].platform;
    var rest := t.rows - {id};
    assert OfPlatform(rest, platform) == OfPlatform(t.rows, platform) - {id};
    assert Greatest(rest, OfPlatform(rest, platform)) == top;
    var after := Step(t, Delete(id)).rows;
    FlaggedBy(after, platform, top);
    forall k | k in Flagged(after, platform) ensures k == top {
      assert k != top ==> k in Flagged(t.rows, platform) && k != id;
    }
  }

  // ---------------------------------------------------------------- every step exactly

  /** The same release, but perhaps for its flag, which is now `flag`. */
  predicate SameBut(before: AppVersion, after: AppVersion, flag: bool) {
    after == AppVersion(before.platform, before.code, before.name, before.title, before.description, before.downloadURL,
                        before.fileHash, before.fileSize, before.isForce, flag)
  }

  /** A new release is stored as given, as the latest of its platform; the other releases
      of that platform lose the flag and change in nothing else. A platform and code that
      exist already are refused. */
  lemma CreateExactly(t: Table, v: AppVersion)
    requires Valid(t)
    ensures var rows' := Step(t, Create(v)).rows;
            if exists id :: id in t.rows && t.rows[id].platform == v.platform && t.rows[id].code == v.code then rows' == t.rows
            else
              && rows'.Keys == t.rows.Keys + {t.nextID} && SameBut(v, rows'[t.nextID], true)
              && forall k :: k in t.rows ==>
                   SameBut(t.rows[k], rows'[k], t.rows[k].isLatest && t.rows[k].platform != v.platform)
  {
  }

  /** A column given is written, and one not given keeps what is stored. */
  predicate Column<T(==)>(stored: T, given: Option<T>, after: T) {
    match given case Some(value) => after == value case None => after == stored
  }

  /** The same for a column that may be NULL, which no edit can make it. */
  predicate NullableColumn<T(==)>(stored: Option<T>, given: Option<T>, after: Option<T>) {
    match given case Some(value) => after == Some(value) case None => after == stored
  }

  /** An edit writes the columns given and no others, and never platform, code or name; the
      other releases change at most in the flag, which those of the platform lose if it is set. */
  lemma UpdateExactly(t: Table, id: int, edit: Edit)
    requires id in t.rows
    ensures var rows' := Step(t, Update(id, edit)).rows;
            && rows'.Keys == t.rows.Keys
            && (var v, v' := t.rows[id], rows'[id];
                && v'.platform == v.platform && v'.code == v.code && v'.name == v.name
                && Column(v.title, edit.title, v'.title) && NullableColumn(v.description, edit.description, v'.description)
                && NullableColumn(v.downloadURL, edit.downloadURL, v'.downloadURL)
                && NullableColumn(v.fileHash, edit.fileHash, v'.fileHash)
                && NullableColumn(v.fileSize, edit.fileSize, v'.fileSize)
                && Column(v.isForce, edit.isForce, v'.isForce) && Column(v.isLatest, edit.isLatest, v'.isLatest))
            && forall k :: k in t.rows && k != id ==>
                 SameBut(t.rows[k], rows'[k],
                         t.rows[k].isLatest && !(edit.isLatest == Some(true) && t.rows[k].platform == t.rows[id].platform))
  {
  }

  /** A deletion removes one row. Of the others only the promoted one changes, in its flag:
      the greatest code left on the platform, if the row deleted was its latest. */
  lemma DeleteExactly(t: Table, id: int)
    requires id in t.rows
    ensures var rows' := Step(t, Delete(id)).rows;
            && rows'.Keys == t.rows.Keys - {id}
            && (!t.rows[id].isLatest ==> forall k :: k in rows' ==> rows'[k] == t.rows[k])
            && (t.rows[id].isLatest ==> forall k :: k in rows' ==>
                  || rows'[k] == t.rows[k]
                  || (SameBut(t.rows[k], rows'[k], true)
                      && IsGreatest(t.rows, OfPlatform(t.rows, t.rows[id].platform) - {id}, k)))
  {
    var rest := t.rows - {id};
    var peers := OfPlatform(rest, t.rows[id].platform);
    assert peers == OfPlatform(t.rows, t.rows[id].platform) - {id};
    if t.rows[id].isLatest && peers != {} {
      var top := Greatest(rest, peers);
      assert IsGreatest(t.rows, peers, top);
    }
  }
}
