/**
 * Loading the saved state: what storage yields is a parameter, already parsed; each usable
 * field of a saved object replaces the current value, and a read or parse failure resets
 * everything to the initial state.
 */
module Persist {
  import opened Cards
  import opened Buckets

  /** One field of the parsed object: missing, present with an unusable value, or usable. */
  datatype Field<T> = Absent | Unusable | Present(value: T)

  /** What storage holds under the store's key, once parsed. */
  datatype Stored =
    | Nothing      // no entry, or an empty string
    | Unreadable   // reading or parsing threw
    | NotAnObject  // parsed to null or to a non-object value
    | Record(nextId: Field<int>, cards: Field<Buckets>, weekVisibility: Field<WeekVisibility>)

  /** The whole store: the id counter, the cards of every day and the saved week overrides. */
  datatype Snapshot = Snapshot(nextId: int, cards: Buckets, weekVisibility: WeekVisibility)

  /** `{ nextId: 1, cards: {}, weekVisibility: {} }`. */
  const Initial := Snapshot(1, map[], map[])

  /** `loadState` applied to the current state `s`. */
  function Load(s: Snapshot, stored: Stored): (r: Snapshot)
    ensures stored.Nothing? || stored.NotAnObject? ==> r == s
    ensures stored.Unreadable? ==> r == Initial
    ensures stored.Record? ==>
      && (r.cards == s.cards || stored.cards == Present(r.cards))
      && (r.weekVisibility == s.weekVisibility || stored.weekVisibility == Present(r.weekVisibility))
      && (r.nextId == s.nextId || stored.nextId == Present(r.nextId))
    ensures stored.Record? && stored.cards.Present? ==> r.cards == stored.cards.value
    ensures stored.Record? && stored.weekVisibility.Present? ==> r.weekVisibility == stored.weekVisibility.value
    ensures stored.Record? ==> (r.nextId != s.nextId ==> r.nextId > 0)
  {
    match stored
    case Nothing => s
    case Unreadable => Initial
    case NotAnObject => s
    case Record(nextId, cards, weekVisibility) =>
      Snapshot(
        if nextId.Present? && nextId.value > 0 then nextId.value else s.nextId,
        if cards.Present? then cards.value else s.cards,
        if weekVisibility.Present? then weekVisibility.value else s.weekVisibility)
  }

  /** A saved counter is taken exactly when it is a number above zero. */
  lemma LoadTakesPositiveCounter(s: Snapshot, nextId: Field<int>, cards: Field<Buckets>, wv: Field<WeekVisibility>)
    ensures Load(s, Record(nextId, cards, wv)).nextId ==
      if nextId.Present? && nextId.value > 0 then nextId.value else s.nextId
  {
  }

  /** Loading never leaves the id counter at zero or below when it was above zero. */
  lemma LoadKeepsCounterPositive(s: Snapshot, stored: Stored)
    requires s.nextId > 0
    ensures Load(s, stored).nextId > 0
  {
  }

  /** Loading the same stored state twice gives what loading it once gives. */
  lemma LoadIdempotent(s: Snapshot, stored: Stored)
    ensures Load(Load(s, stored), stored) == Load(s, stored)
  {
  }
}
