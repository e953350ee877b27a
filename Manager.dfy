/**
 * The event-list handling of the main window (`Timotheus.MainWindow`): the
 * full list `events`, the rows `shownEvents` listed for the selected `year`,
 * adding an event, stepping the year, refilling the rows, and the soft
 * delete behind the Remove button. The grid, its selection and its sorting
 * are not modelled; the selected row is a parameter.
 */
module Forms {
  import opened Wrappers
  import opened Schedule

  /** The row filter of `UpdateTable`: starts in `year` and is not tombstoned. */
  predicate IsShown(e: Event, year: int)
    reads e
  {
    e.StartTime.year == year && !e.Deleted
  }

  /** The rows `UpdateTable` lists for `year`, before sorting: the shown entries of `events` in order. */
  ghost function Visible(events: seq<Event>, year: int): (r: seq<Event>)
    reads events
    ensures |r| <= |events|
    ensures forall e :: e in r ==> e in events && IsShown(e, year)
  {
    if events == [] then []
    else
      var last := events[|events| - 1];
      Visible(events[..|events| - 1], year) + if IsShown(last, year) then [last] else []
  }

  /** An entry is listed exactly when it is in the list and passes the row filter. */
  lemma {:induction false} VisibleMembership(events: seq<Event>, year: int, e: Event)
    ensures e in Visible(events, year) <==> e in events && IsShown(e, year)
    decreases |events|
  {
    if events != [] {
      var init := events[..|events| - 1];
      assert events == init + [events[|events| - 1]];
      VisibleMembership(init, year, e);
    }
  }

  /** Filtering respects concatenation, so the listed rows keep the list's order. */
  lemma {:induction false} VisibleAppend(a: seq<Event>, b: seq<Event>, year: int)
    ensures Visible(a + b, year) == Visible(a, year) + Visible(b, year)
    decreases |b|
  {
    if b == [] {
      assert a + b == a;
    } else {
      var last := b[|b| - 1];
      assert (a + b)[..|a + b| - 1] == a + b[..|b| - 1];
      VisibleAppend(a, b[..|b| - 1], year);
    }
  }

  /**
   * The search of `Remove_Click`: the last index whose entry `ev` equals by
   * value, or None when no entry does.
   */
  function LastEqual(events: seq<Event>, ev: Event): (r: Option<nat>)
    reads events, ev
    ensures r.Some? ==>
      && r.value < |events| && ev.Equals(events[r.value])
      && forall j :: r.value < j < |events| ==> !ev.Equals(events[j])
    ensures r.None? ==> forall j :: 0 <= j < |events| ==> !ev.Equals(events[j])
  {
    if events == [] then None
    else if ev.Equals(events[|events| - 1]) then Some(|events| - 1)
    else LastEqual(events[..|events| - 1], ev)
  }

  /** The index `Remove_Click` tombstones: the last match, or 0 when nothing matches. */
  function TombstoneIndex(events: seq<Event>, ev: Event): (k: nat)
    reads events, ev
    ensures (exists j :: 0 <= j < |events| && ev.Equals(events[j])) ==>
      && k < |events| && ev.Equals(events[k])
      && forall j :: k < j < |events| ==> !ev.Equals(events[j])
    ensures (forall j :: 0 <= j < |events| ==> !ev.Equals(events[j])) ==> k == 0
  {
    match LastEqual(events, ev)
    case Some(i) => i
    case None => 0
  }

  /** An event taken from the list always finds a match there, since `Equals` is reflexive. */
  lemma LastEqualFindsMember(events: seq<Event>, ev: Event)
    requires ev in events
    ensures LastEqual(events, ev).Some?
  {
  }

  /**
   * `Equals` ignores `Deleted`, so the search can land on a value-equal copy
   * that is already tombstoned: with `[a, b]`, `a` equal to `b` and `b`
   * deleted, selecting `a` marks `b` again and `a` stays listed.
   */
  lemma RemoveCanMarkTombstonedCopy(a: Event, b: Event, year: int)
    requires a.Equals(b) && b.Deleted && IsShown(a, year)
    ensures TombstoneIndex([a, b], a) == 1
    ensures a in Visible([a, b], year)
  {
    VisibleMembership([a, b], year, a);
  }

  /** The loop of `UpdateTable`: collects the shown entries in list order. */
  method FilterShown(events: seq<Event>, year: int) returns (shown: seq<Event>)
    ensures shown == Visible(events, year)
  {
    shown := [];
    for i := 0 to |events|
      invariant shown == Visible(events[..i], year)
    {
      assert events[..i + 1][..i] == events[..i];
      if IsShown(events[i], year) {
        shown := shown + [events[i]];
      }
    }
    assert events[..|events|] == events;
  }

  /** The loop of `Remove_Click`: every match overwrites `index`, which starts at 0. */
  method FindLastEqual(events: seq<Event>, ev: Event) returns (index: nat)
    ensures index == TombstoneIndex(events, ev)
  {
    index := 0;
    for i := 0 to |events|
      invariant index == TombstoneIndex(events[..i], ev)
    {
      assert events[..i + 1][..i] == events[..i];
      if ev.Equals(events[i]) {
        index := i;
      }
    }
    assert events[..|events|] == events;
  }

  class MainWindow {
    var events: seq<Event>
    var shownEvents: seq<Event>
    var year: int

    /** Every listed row is an entry of the list. */
    ghost predicate Valid()
      reads this
    {
      forall e :: e in shownEvents ==> e in events
    }

    /**
     * The window's start-up, without the file and calendar access: the loaded
     * events and the current year are parameters.
     */
    constructor (loaded: seq<Event>, currentYear: int)
      ensures events == loaded && year == currentYear
      ensures shownEvents == Visible(loaded, currentYear) && Valid()
    {
      events := loaded;
      year := currentYear;
      new;
      UpdateTable();
    }

    /** Appends the event to the list and refills the rows. */
    method AddEventToCalendar(ev: Event)
      modifies this`events, this`shownEvents
      ensures events == old(events) + [ev]
      ensures shownEvents == Visible(events, year) && Valid()
    {
      events := events + [ev];
      UpdateTable();
    }

    /** The year buttons: "+" steps forward, "-" back, any other text keeps the year. */
    method UpdateYear(buttonText: string)
      modifies this`year, this`shownEvents
      ensures year == if buttonText == "+" then old(year) + 1
                      else if buttonText == "-" then old(year) - 1
                      else old(year)
      ensures shownEvents == Visible(events, year) && Valid()
    {
      if buttonText == "+" {
        year := year + 1;
      } else if buttonText == "-" {
        year := year - 1;
      }
      UpdateTable();
    }

    /** Clears and refills the rows from the list. */
    method UpdateTable()
      modifies this`shownEvents
      ensures shownEvents == Visible(events, year) && Valid()
    {
      shownEvents := FilterShown(events, year);
    }

    /**
     * The Remove button with row `row` selected: when rows are listed, marks
     * the last list entry equal to the selected row as deleted (the first
     * entry when none is) and refills the rows. Nothing is taken out of the
     * list.
     */
    method RemoveClick(row: nat)
      requires |shownEvents| > 0 ==> row < |shownEvents| && |events| > 0
      modifies this`shownEvents, events`Deleted
      ensures events == old(events) && year == old(year)
      ensures old(|shownEvents|) == 0 ==>
        shownEvents == old(shownEvents) && forall e :: e in events ==> e.Deleted == old(e.Deleted)
      ensures old(|shownEvents|) > 0 ==>
        var k := old(TombstoneIndex(events, shownEvents[row]));
        && events[k].Deleted
        && (forall e :: e in events && e != events[k] ==> e.Deleted == old(e.Deleted))
        && shownEvents == Visible(events, year)
        && events[k] !in shownEvents
      ensures old(Valid()) && old(|shownEvents|) > 0 ==>
        old(LastEqual(events, shownEvents[row])).Some?
      ensures old(Valid()) ==> Valid()
    {
      if |shownEvents| > 0 {
        var ev := shownEvents[row];
        if Valid() {
          LastEqualFindsMember(events, ev);
        }
        var index := FindLastEqual(events, ev);
        var target := events[index];
        target.Deleted := true;
        UpdateTable();
      }
    }
  }

}
