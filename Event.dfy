/**
 * The calendar event record (`Timotheus.Schedule.Event`): three text
 * properties whose setters strip CR LF and stamp the change time, the
 * timestamps, the identifier and the tombstone flag, together with
 * identifier generation, same-identifier update and value comparison.
 *
 * The clock (`DateTime.Now`) and the random source (`System.Random`) are
 * parameters: `now` is the time a setter runs, `random` the 16 bytes
 * `NextBytes` would have filled in.
 */
module Schedule {
  import opened Wrappers
  import opened Strings

  /**
   * A .NET `DateTime` as the core uses it: compared with `Equals` and asked
   * for its `Year`. Two instants are equal exactly when all components are.
   */
  datatype DateTime = DateTime(year: int, month: int, day: int, timeOfDay: int)

  /** Everything `Event.Equals` compares, and nothing else. */
  datatype EventValue = EventValue(
    startTime: DateTime, endTime: DateTime, created: DateTime,
    name: string, description: string, location: string, uid: string)

  class Event {
    var name: string
    var description: string
    var location: string
    var StartTime: DateTime
    var EndTime: DateTime
    var Changed: DateTime
    var Created: DateTime
    const UID: string
    var Deleted: bool

    /** The `Name` setter: stores the value with CR LF pairs removed and stamps `Changed`. */
    method SetName(value: string, now: DateTime)
      modifies this`name, this`Changed
      ensures name == RemoveAll(value, CRLF) && Changed == now
    {
      name := RemoveAll(value, CRLF);
      Changed := now;
    }

    /** The `Description` setter: stores the value verbatim and stamps `Changed`. */
    method SetDescription(value: string, now: DateTime)
      modifies this`description, this`Changed
      ensures description == value && Changed == now
    {
      description := value;
      Changed := now;
    }

    /** The `Location` setter: same stripping and stamping as `Name`. */
    method SetLocation(value: string, now: DateTime)
      modifies this`location, this`Changed
      ensures location == RemoveAll(value, CRLF) && Changed == now
    {
      location := RemoveAll(value, CRLF);
      Changed := now;
    }

    /**
     * The seven-argument constructor. The text goes through the setters,
     * whose stamps are then overwritten by `Changed := Created`; a missing
     * identifier is generated from `random`.
     */
    constructor (startTime: DateTime, endTime: DateTime, created: DateTime,
                 newName: string, newDescription: string, newLocation: string,
                 uid: Option<string>, random: seq<byte>, now: DateTime)
      requires uid.None? ==> |random| == 16
      ensures StartTime == startTime && EndTime == endTime && Created == created
      ensures name == RemoveAll(newName, CRLF) && location == RemoveAll(newLocation, CRLF)
      ensures description == newDescription
      ensures Changed == created && !Deleted
      ensures UID == if uid.Some? then uid.value else GenerateUID(random)
    {
      StartTime := startTime;
      EndTime := endTime;
      Created := created;
      // A readonly field: Dafny assigns it before `new`, the source as the last step.
      UID := if uid.Some? then uid.value else GenerateUID(random);
      new;
      SetName(newName, now);
      SetLocation(newLocation, now);
      SetDescription(newDescription, now);
      Changed := created;
      Deleted := false;
    }

    /**
     * `GenerateUID`: the 16 bytes through `BitConverter.ToString`, the dashes
     * removed, and the 32 digits regrouped 8-4-4-4-12.
     */
    static function GenerateUID(random: seq<byte>): (uid: string)
      requires |random| == 16
      ensures IsUidShape(uid)
      ensures UidDigits(uid) == HexOf(random)
      ensures ParseUid(uid) == Some(random)
    {
      StripDashes(random);
      var digits := RemoveAll(BitConverterToString(random), "-");
      GroupedRoundTrip(digits);
      HexRoundTrip(random);
      Grouped(digits)
    }

    /** The fields `Equals` compares. */
    function Value(): EventValue
      reads this
    {
      EventValue(StartTime, EndTime, Created, name, description, location, UID)
    }

    /**
     * `Equals(object)` for an event argument: a field-by-field comparison that
     * leaves out `Changed` and `Deleted`; false for null.
     */
    predicate Equals(obj: Event?)
      reads this, obj
      ensures Equals(obj) <==> obj != null && Value() == obj.Value()
    {
      obj != null &&
      StartTime == obj.StartTime && EndTime == obj.EndTime && Created == obj.Created &&
      name == obj.name && description == obj.description && location == obj.location &&
      UID == obj.UID
    }

    /**
     * `Update(ev)`: when the identifiers agree, takes over the text through the
     * setters (so `Changed` becomes the current time) and the three timestamps;
     * otherwise does nothing.
     */
    method Update(ev: Event, now: DateTime)
      modifies this
      ensures UID != ev.UID ==> unchanged(this)
      ensures UID == ev.UID ==>
        && name == RemoveAll(old(ev.name), CRLF)
        && description == old(ev.description)
        && location == RemoveAll(old(ev.location), CRLF)
        && StartTime == old(ev.StartTime) && EndTime == old(ev.EndTime) && Created == old(ev.Created)
        && Changed == now && Deleted == old(Deleted)
      ensures UID == ev.UID && !Contains(old(ev.name), CRLF) && !Contains(old(ev.location), CRLF) ==>
        Equals(ev)
    {
      if UID == ev.UID {
        ghost var evName, evLocation := ev.name, ev.location;
        SetName(ev.name, now);
        SetDescription(ev.description, now);
        SetLocation(ev.location, now);
        StartTime := ev.StartTime;
        EndTime := ev.EndTime;
        Created := ev.Created;
        if !Contains(evName, CRLF) && !Contains(evLocation, CRLF) {
          RemoveAllAbsent(evName, CRLF);
          RemoveAllAbsent(evLocation, CRLF);
        }
      }
    }
  }

  /** Distinct byte strings give distinct identifiers. */
  lemma GenerateUIDInjective(a: seq<byte>, b: seq<byte>)
    requires |a| == 16 && |b| == 16 && a != b
    ensures Event.GenerateUID(a) != Event.GenerateUID(b)
  {
  }

  lemma EqualsReflexive(a: Event)
    ensures a.Equals(a)
  {
  }

  lemma EqualsSymmetric(a: Event, b: Event)
    ensures a.Equals(b) <==> b.Equals(a)
  {
  }

  lemma EqualsTransitive(a: Event, b: Event, c: Event)
    requires a.Equals(b) && b.Equals(c)
    ensures a.Equals(c)
  {
  }

}
