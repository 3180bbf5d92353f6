/**
 The event record, its closed time range, and the edit session: a draft copy
 that points back at the event it edits and writes its dates back on commit.
 Dates are integer instants; the image, colour, font, border and attributed-text
 fields are not modelled.
 */
module Events {
  import opened Wrappers

  /** Identity of an event object; the draft's weak back-reference holds one. */
  type EventId = nat

  datatype Event = Event(
    group: int,
    startDate: int,
    endDate: int,
    isAllDay: bool,
    text: string,
    userInfo: Option<string>,
    editedEvent: Option<EventId>)

  /** The closed interval `startDate...endDate`. */
  datatype ClosedRange = ClosedRange(lower: int, upper: int)

  /** The event's closed range, which exists only when it does not end before it starts. */
  function Range(e: Event): (r: Option<ClosedRange>)
    ensures r.Some? <==> e.endDate >= e.startDate
    ensures r.Some? ==> r.value.lower == e.startDate && r.value.upper == e.endDate
  {
    if e.endDate >= e.startDate then Some(ClosedRange(e.startDate, e.endDate)) else None
  }

  /** Whether two closed ranges share at least one instant; touching ends count. */
  predicate RangesOverlap(a: ClosedRange, b: ClosedRange) {
    !(b.upper < a.lower || a.upper < b.lower)
  }

  /** Both events have a range and the two ranges overlap. */
  predicate Overlaps(a: Event, b: Event) {
    && Range(a).Some?
    && Range(b).Some?
    && RangesOverlap(Range(a).value, Range(b).value)
  }

  /** Overlap is symmetric, holds for every valid event with itself, and is exactly
      "each starts no later than the other ends". */
  lemma OverlapsCharacterized(a: Event, b: Event)
    ensures Overlaps(a, b) <==>
      a.startDate <= a.endDate && b.startDate <= b.endDate &&
      a.startDate <= b.endDate && b.startDate <= a.endDate
    ensures Overlaps(a, b) == Overlaps(b, a)
    ensures Overlaps(a, a) <==> Range(a).Some?
  {
  }

  /** How long the event lasts (`endDate.timeIntervalSince(startDate)`). */
  function Duration(e: Event): int {
    e.endDate - e.startDate
  }

  /** The live event objects, by identity. A weak reference whose id is no longer
      in the store reads as nil. */
  type Store = map<EventId, Event>

  /** The draft made by `makeEditable` on the event stored under `self`: a copy of
      every modelled field except the back-reference, which points at `self`. */
  function MakeEditable(e: Event, self: EventId): (draft: Event)
    ensures draft.startDate == e.startDate && draft.endDate == e.endDate
    ensures draft.isAllDay == e.isAllDay && draft.text == e.text
    ensures draft.group == e.group && draft.userInfo == e.userInfo
    ensures draft.editedEvent == Some(self)
    ensures Range(draft) == Range(e) && Duration(draft) == Duration(e)
  {
    Event(e.group, e.startDate, e.endDate, e.isAllDay, e.text, e.userInfo, Some(self))
  }

  /** The event a draft still refers to, if it is alive. */
  function EditTarget(store: Store, draft: Event): (t: Option<EventId>)
    ensures t.Some? <==> draft.editedEvent.Some? && draft.editedEvent.value in store
    ensures t.Some? ==> t.value == draft.editedEvent.value
  {
    match draft.editedEvent
    case Some(id) => if id in store then Some(id) else None
    case None => None
  }

  /** `commitEditing`: copy the draft's start and end onto the event it edits;
      nothing happens when the back-reference is nil. */
  function CommitEditing(store: Store, draft: Event): (after: Store)
    ensures after.Keys == store.Keys
    ensures EditTarget(store, draft).None? ==> after == store
    ensures forall id :: id in store && Some(id) != EditTarget(store, draft) ==> after[id] == store[id]
    ensures EditTarget(store, draft).Some? ==>
      var id := EditTarget(store, draft).value;
      && after[id].startDate == draft.startDate
      && after[id].endDate == draft.endDate
      && after[id].group == store[id].group
      && after[id].isAllDay == store[id].isAllDay
      && after[id].text == store[id].text
      && after[id].userInfo == store[id].userInfo
      && after[id].editedEvent == store[id].editedEvent
  {
    match EditTarget(store, draft)
    case None => store
    case Some(id) => store[id := store[id].(startDate := draft.startDate, endDate := draft.endDate)]
  }

  /** Committing a draft that was not changed leaves every event as it was. */
  lemma CommitUnchangedDraft(store: Store, id: EventId)
    requires id in store
    ensures CommitEditing(store, MakeEditable(store[id], id)) == store
  {
    var after := CommitEditing(store, MakeEditable(store[id], id));
    assert after[id] == store[id];
  }

  /** Moving the draft to new dates and committing moves the original to exactly those
      dates and changes nothing else in the store. */
  lemma CommitMovedDraft(store: Store, id: EventId, newStart: int, newEnd: int)
    requires id in store
    ensures
      var draft := MakeEditable(store[id], id).(startDate := newStart, endDate := newEnd);
      CommitEditing(store, draft) == store[id := store[id].(startDate := newStart, endDate := newEnd)]
  {
  }
}
