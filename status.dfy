/** The punch status of the app: what it starts in, what the event log makes it, and which
    punches the click handler lets through. */
module Status {
  import opened Punches
  import opened Sorting

  /** The status before any event has been read: clocked out. */
  const InitialStatus: Kind := Taikin

  /** The status an event of kind `k` leaves on screen: a break end shows as clocked in. */
  function Displayed(k: Kind): Kind {
    if k == KyuukeiShuuryou then Shukkin else k
  }

  /** The effect on `events`: the kind of the last event, shown as `Displayed`; an empty list
      leaves the status as it was. */
  function DeriveStatus(current: Kind, events: seq<Event>): (r: Kind)
    ensures events == [] ==> r == current
    ensures events != [] ==> r != KyuukeiShuuryou
  {
    if |events| > 0 then Displayed(events[|events| - 1].kind) else current
  }

  /** The guards of `handleButtonClick`: a clock-out and a break start need the status to be
      clocked in or just back from a break, a break end needs a break under way, and a
      clock-in is never refused. */
  predicate Accepts(status: Kind, k: Kind)
    ensures status == Taikin && Accepts(status, k) ==> k == Shukkin
  {
    match k
    case Shukkin => true
    case Taikin => status == Shukkin || status == KyuukeiShuuryou
    case KyuukeiKaishi => status == Shukkin || status == KyuukeiShuuryou
    case KyuukeiShuuryou => status == KyuukeiKaishi
  }

  /** The status a non-empty event list gives never is "break ended", and it is the kind of
      the last event exactly when that kind is not a break end. */
  lemma DerivedStatusShape(current: Kind, events: seq<Event>)
    requires events != []
    ensures DeriveStatus(current, events) != KyuukeiShuuryou
    ensures DeriveStatus(current, events) == events[|events| - 1].kind
        <==> events[|events| - 1].kind != KyuukeiShuuryou
  {
  }

  /** Deriving twice from the same list gives the same status, whatever the status was. */
  lemma DeriveStatusStable(a: Kind, b: Kind, events: seq<Event>)
    requires events != []
    ensures DeriveStatus(DeriveStatus(a, events), events) == DeriveStatus(b, events)
  {
  }

  /** From the list `getAllEvents` returns, sorted by timestamp, the status is that of an
      event with the latest timestamp in the store. */
  lemma DerivedFromLatest(current: Kind, store: seq<Event>)
    requires store != []
    ensures exists e :: e in store
              && (forall x :: x in store ==> x.timestamp <= e.timestamp)
              && DeriveStatus(current, SortBy(store, EventTime)) == Displayed(e.kind)
  {
    var sorted := SortBy(store, EventTime);
    var e := sorted[|sorted| - 1];
    SortKeepsMembers(store, EventTime, e);
    forall x | x in store
      ensures x.timestamp <= e.timestamp
    {
      SortKeepsMembers(store, EventTime, x);
      var i :| 0 <= i < |sorted| && sorted[i] == x;
      assert EventTime(sorted[i]) <= EventTime(sorted[|sorted| - 1]);
    }
  }

  /** The handler accepts a punch only from a status that can lead to it: the clock-in
      is the one punch accepted from every status. */
  lemma AcceptedFrom(status: Kind, k: Kind)
    ensures Accepts(status, k) && k != Shukkin
        ==> (k == KyuukeiShuuryou <==> status == KyuukeiKaishi)
    ensures Accepts(status, Shukkin)
    ensures status == KyuukeiKaishi ==> (Accepts(status, k) <==> k == Shukkin || k == KyuukeiShuuryou)
    ensures status == Taikin ==> (Accepts(status, k) <==> k == Shukkin)
  {
  }
}
