/** The `App` component's punch logic: the `status` state, the `events` state, the event
    store `addEvent` writes to, and the revert timers `handleButtonClick` schedules. */
module App {
  import opened Punches
  import opened Sorting
  import opened Status

  /** The status `s` on screen agrees with an event of kind `k`: it is that kind, or the
      clocked-in image a break end turns into. */
  predicate Shows(s: Kind, k: Kind) {
    s == k || (k == KyuukeiShuuryou && s == Shukkin)
  }

  class App {
    /** `status`: the image on screen. */
    var status: Kind
    /** The event store, in the order the events were added. */
    var store: seq<Event>
    /** `events`: the list last read from the store. */
    var events: seq<Event>
    /** Revert timers scheduled and not yet fired. */
    var pendingReverts: nat

    /** The status agrees with the event added last, and is clocked out before any. */
    predicate InSync()
      reads this
    {
      if store == [] then status == InitialStatus else Shows(status, store[|store| - 1].kind)
    }

    /** The component as it mounts: clocked out, no events read yet and no timers, over the
        store that earlier sessions left behind. */
    constructor (persisted: seq<Event>)
      ensures status == InitialStatus && store == persisted && events == [] && pendingReverts == 0
      ensures persisted == [] ==> InSync()
    {
      status := InitialStatus;
      store := persisted;
      events := [];
      pendingReverts := 0;
    }

    /** `handleButtonClick(newStatus)` at time `now`: an ignored punch changes nothing; an
        accepted one adds exactly one event of its kind, shows its kind, and after a break
        end schedules the revert. */
    method HandleButtonClick(newStatus: Kind, now: int) returns (accepted: bool)
      modifies this
      ensures accepted == Accepts(old(status), newStatus)
      ensures accepted ==> status == newStatus && store == old(store) + [Event(newStatus, now)]
                           && pendingReverts == old(pendingReverts) + (if newStatus == KyuukeiShuuryou then 1 else 0)
      ensures !accepted ==> status == old(status) && store == old(store) && pendingReverts == old(pendingReverts)
      ensures events == old(events)
      ensures old(InSync()) ==> InSync()
    {
      if newStatus == Taikin {
        if status != Shukkin && status != KyuukeiShuuryou {
          return false;
        }
      }
      if newStatus == KyuukeiKaishi {
        if status != Shukkin && status != KyuukeiShuuryou {
          return false;
        }
      }
      if newStatus == KyuukeiShuuryou {
        if status != KyuukeiKaishi {
          return false;
        }
      }
      store := store + [Event(newStatus, now)];
      status := newStatus;
      if newStatus == KyuukeiShuuryou {
        pendingReverts := pendingReverts + 1;
      }
      accepted := true;
    }

    /** `getAllEvents().then(setEvents)` and the effect on `events`: the store read back in
        timestamp order, and the status derived from its last event. */
    method Refresh()
      modifies this
      ensures events == SortBy(store, EventTime)
      ensures status == DeriveStatus(old(status), events)
      ensures store == old(store) && pendingReverts == old(pendingReverts)
    {
      events := SortBy(store, EventTime);
      if |events| > 0 {
        var lastEvent := events[|events| - 1];
        if lastEvent.kind == KyuukeiShuuryou {
          status := Shukkin;
        } else {
          status := lastEvent.kind;
        }
      }
    }

    /** A revert timer fires as written: `setStatus("shukkin")`, whatever the status is by
        then. */
    method FireRevertAsWritten()
      requires pendingReverts > 0
      modifies this
      ensures status == Shukkin
      ensures pendingReverts == old(pendingReverts) - 1
      ensures store == old(store) && events == old(events)
    {
      status := Shukkin;
      pendingReverts := pendingReverts - 1;
    }

    /** A revert timer fires, corrected: it turns a break end still on screen into clocked
        in and leaves any later punch alone. */
    method FireRevert()
      requires pendingReverts > 0
      modifies this
      ensures status == (if old(status) == KyuukeiShuuryou then Shukkin else old(status))
      ensures pendingReverts == old(pendingReverts) - 1
      ensures store == old(store) && events == old(events)
      ensures old(InSync()) ==> InSync()
    {
      if status == KyuukeiShuuryou {
        status := Shukkin;
      }
      pendingReverts := pendingReverts - 1;
    }
  }

  /** While punches come in time order, reading the store back returns it as it is and the
      derived status is the one the last punch left. */
  lemma RefreshKeepsSync(store: seq<Event>, status: Kind)
    requires SortedBy(store, EventTime)
    requires if store == [] then status == InitialStatus else Shows(status, store[|store| - 1].kind)
    ensures SortBy(store, EventTime) == store
    ensures var s := DeriveStatus(status, SortBy(store, EventTime));
            if store == [] then s == InitialStatus else Shows(s, store[|store| - 1].kind)
  {
    SortSortedIsIdentity(store, EventTime);
  }

  /** Reading back a non-empty store kept in time order shows its last punch, whatever was
      on screen before. */
  lemma RefreshShowsLast(store: seq<Event>, status: Kind)
    requires SortedBy(store, EventTime) && store != []
    ensures Shows(DeriveStatus(status, SortBy(store, EventTime)), store[|store| - 1].kind)
  {
    SortSortedIsIdentity(store, EventTime);
  }

  /** The mount effect's `getAllEvents().then(setEvents)`: the store an earlier session left
      is read back and the status derived from it; for a store kept in time order the screen
      then agrees with its last punch. */
  method Mount(persisted: seq<Event>) returns (app: App)
    ensures app.store == persisted && app.events == SortBy(persisted, EventTime)
    ensures app.status == DeriveStatus(InitialStatus, app.events)
    ensures app.pendingReverts == 0
    ensures SortedBy(persisted, EventTime) ==> app.InSync()
    ensures fresh(app)
  {
    app := new App(persisted);
    app.Refresh();
    if SortedBy(persisted, EventTime) && persisted != [] {
      RefreshShowsLast(persisted, InitialStatus);
    }
  }

  /** A punch no earlier than the last keeps the store in time order. */
  lemma PunchKeepsOrder(store: seq<Event>, e: Event)
    requires SortedBy(store, EventTime)
    requires store != [] ==> store[|store| - 1].timestamp <= e.timestamp
    ensures SortedBy(store + [e], EventTime)
  {
    var s := store + [e];
    forall i, j | 0 <= i < j < |s|
      ensures EventTime(s[i]) <= EventTime(s[j])
    {
      if j == |store| && i < |store| - 1 {
        assert EventTime(store[i]) <= EventTime(store[|store| - 1]);
      }
    }
  }

  /** Clock in, start and end a break, clock out, one millisecond apart from `t` on. */
  method PunchThrough(t: int) returns (app: App)
    ensures app.store == [Event(Shukkin, t), Event(KyuukeiKaishi, t + 1),
                          Event(KyuukeiShuuryou, t + 2), Event(Taikin, t + 3)]
    ensures SortedBy(app.store, EventTime)
    ensures app.status == Taikin && app.pendingReverts == 1 && app.InSync()
    ensures fresh(app)
  {
    app := new App([]);
    ghost var s1 := [Event(Shukkin, t)];
    ghost var s2 := s1 + [Event(KyuukeiKaishi, t + 1)];
    ghost var s3 := s2 + [Event(KyuukeiShuuryou, t + 2)];
    var ok := app.HandleButtonClick(Shukkin, t);
    assert app.store == s1 && app.status == Shukkin && app.pendingReverts == 0;
    PunchKeepsOrder([], Event(Shukkin, t));
    ok := app.HandleButtonClick(KyuukeiKaishi, t + 1);
    assert app.store == s2 && app.status == KyuukeiKaishi && app.pendingReverts == 0;
    PunchKeepsOrder(s1, Event(KyuukeiKaishi, t + 1));
    ok := app.HandleButtonClick(KyuukeiShuuryou, t + 2);
    assert app.store == s3 && app.status == KyuukeiShuuryou && app.pendingReverts == 1;
    PunchKeepsOrder(s2, Event(KyuukeiShuuryou, t + 2));
    ok := app.HandleButtonClick(Taikin, t + 3);
    PunchKeepsOrder(s3, Event(Taikin, t + 3));
  }

  /** The revert race as written: the punches of `PunchThrough`, the clock-out made before
      the break end's timer fires, and the store read back in between. The timer then puts
      the clocked-in image on screen although the last event read back is a clock-out. */
  method RevertRaceAsWritten(t: int) returns (app: App)
    ensures app.events == [Event(Shukkin, t), Event(KyuukeiKaishi, t + 1),
                           Event(KyuukeiShuuryou, t + 2), Event(Taikin, t + 3)]
    ensures app.status == Shukkin
    ensures !app.InSync()
  {
    app := PunchThrough(t);
    SortSortedIsIdentity(app.store, EventTime);
    app.Refresh();
    app.FireRevertAsWritten();
  }

  /** The same punches with the corrected timer: the clock-out stays on screen. */
  method RevertRaceCorrected(t: int) returns (app: App)
    ensures app.events == [Event(Shukkin, t), Event(KyuukeiKaishi, t + 1),
                           Event(KyuukeiShuuryou, t + 2), Event(Taikin, t + 3)]
    ensures app.status == Taikin
    ensures app.InSync()
  {
    app := PunchThrough(t);
    SortSortedIsIdentity(app.store, EventTime);
    app.Refresh();
    app.FireRevert();
  }
}
