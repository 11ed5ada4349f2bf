/**
 * The page's mutable `state` object and the handlers that change it in place. Every method
 * is tied to the function over values that specifies it; the properties of the store are
 * proved about those functions.
 */
module NoteStore {
  import opened Wrappers
  import opened Cards
  import opened Buckets
  import opened Persist

  /** The inner loop of `syncCurrentMonthFromDom`: one card per element with a finite id. */
  method HarvestCards(vs: seq<VisualCard>) returns (list: seq<Card>)
    ensures list == Harvest(vs)
  {
    list := [];
    var j := 0;
    while j < |vs|
      invariant 0 <= j <= |vs|
      invariant list == Harvest(vs[..j])
    {
      assert vs[..j + 1][..j] == vs[..j];
      var id := NumberOf(vs[j].idAttr);
      if id.Some? {
        list := list + [Harvested(vs[j], id.value)];
      }
      j := j + 1;
    }
    assert vs[..j] == vs;
  }

  class Store {
    var nextId: int
    var cards: Buckets
    var weekVisibility: WeekVisibility

    /** The state as a value. */
    function Snap(): Snapshot
      reads this
    {
      Snapshot(nextId, cards, weekVisibility)
    }

    /** The state the page starts from. */
    constructor ()
      ensures Snap() == Initial
    {
      nextId := 1;
      cards := map[];
      weekVisibility := map[];
    }

    /** `loadState`. */
    method LoadState(stored: Stored)
      modifies this
      ensures Snap() == Load(old(Snap()), stored)
    {
      match stored
      case Nothing =>
      case Unreadable =>
        nextId, cards, weekVisibility := 1, map[], map[];
      case NotAnObject =>
      case Record(savedNextId, savedCards, savedVisibility) =>
        if savedCards.Present? {
          cards := savedCards.value;
        }
        if savedVisibility.Present? {
          weekVisibility := savedVisibility.value;
        }
        if savedNextId.Present? && savedNextId.value > 0 {
          nextId := savedNextId.value;
        }
    }

    /** `ensureCardList`: the day's list, created empty when the day has none. */
    method EnsureCardList(key: string) returns (list: seq<Card>)
      modifies this
      ensures list == CardsFor(old(cards), key)
      ensures cards == old(cards)[key := list]
      ensures nextId == old(nextId) && weekVisibility == old(weekVisibility)
    {
      if key !in cards {
        cards := cards[key := []];
      }
      list := cards[key];
    }

    /** `upsertCard`. */
    method UpsertCard(key: string, c: Card)
      modifies this
      ensures cards == Upsert(old(cards), key, c)
      ensures nextId == old(nextId) && weekVisibility == old(weekVisibility)
    {
      var list := EnsureCardList(key);
      ghost var before := list;
      var idx := FindCardIndex(list, c.id);
      if idx >= 0 {
        list := list[idx := c];
      } else {
        list := list + [c];
      }
      assert list == Upserted(before, c);
      assert before == CardsFor(old(cards), key);
      cards := cards[key := list];
      assert cards == old(cards)[key := Upserted(CardsFor(old(cards), key), c)];
    }

    /** `deleteCardFromState`. */
    method DeleteCardFromState(key: string, id: int) returns (deleted: bool)
      modifies this
      ensures Deletion(deleted, cards) == Delete(old(cards), key, id)
      ensures nextId == old(nextId) && weekVisibility == old(weekVisibility)
    {
      if key !in cards {
        return false;
      }
      var initLen := |cards[key]|;
      cards := cards[key := WithoutId(cards[key], id)];
      deleted := |cards[key]| < initLen;
      if |cards[key]| == 0 {
        cards := cards - {key};
      }
    }

    /** `syncOneCardFromDom` for one card element on day `date`. */
    method SyncOneCard(date: string, v: VisualCard)
      modifies this
      ensures cards == SyncOne(old(cards), date, v)
      ensures nextId == old(nextId) && weekVisibility == old(weekVisibility)
    {
      if date == "" || !IsTruthy(v.idAttr) {
        return;
      }
      var id := NumberOf(v.idAttr);
      if id.None? {
        return;
      }
      UpsertCard(date, Harvested(v, id.value));
    }

    /** `syncCurrentMonthFromDom`: every rendered day cell rewrites its day, in document order. */
    method SyncCurrentMonth(cells: seq<DayCell>)
      modifies this
      ensures cards == Reconcile(old(cards), cells)
      ensures nextId == old(nextId) && weekVisibility == old(weekVisibility)
    {
      var i := 0;
      while i < |cells|
        invariant 0 <= i <= |cells|
        invariant cards == Reconcile(old(cards), cells[..i])
        invariant nextId == old(nextId) && weekVisibility == old(weekVisibility)
      {
        assert cells[..i + 1][..i] == cells[..i];
        var cell := cells[i];
        if cell.date != "" {
          if |cell.cards| == 0 {
            cards := cards - {cell.date};
          } else {
            var list := HarvestCards(cell.cards);
            cards := cards[cell.date := list];
          }
        }
        i := i + 1;
      }
      assert cells[..i] == cells;
    }

    /**
     * `createCard`'s bookkeeping: the card takes a usable given id or a fresh one from the
     * counter, and is recorded on its day unless it is being rendered from the state or has
     * no day.
     */
    method CreateCard(cellDate: string, input: CardInput, fromState: bool) returns (card: Card)
      modifies this
      ensures var minted := MintId(input.id, old(nextId));
        && card == CardFrom(input, minted.id)
        && nextId == minted.nextId
        && cards == (if cellDate != "" && !fromState then Upsert(old(cards), cellDate, card) else old(cards))
      ensures weekVisibility == old(weekVisibility)
    {
      var id: int;
      if input.id.Some? && input.id.value > 0 {
        id := input.id.value;
      } else {
        id := nextId;
        nextId := nextId + 1;
      }
      card := CardFrom(input, id);
      if cellDate != "" && !fromState {
        UpsertCard(cellDate, card);
      }
    }

    /**
     * The delete button: the card's own day first, then every day in `order` (the keys of the
     * store at that moment, in their enumeration order) until one deletes it; afterwards the
     * store is reconciled with the rendered `cells`, from which the card element is gone.
     */
    method DeleteButton(key: string, idAttr: IdAttr, order: seq<string>, cells: seq<DayCell>)
      modifies this
      ensures cards == Reconcile(DeleteHandled(old(cards), key, idAttr, order), cells)
      ensures nextId == old(nextId) && weekVisibility == old(weekVisibility)
    {
      if key != "" && IsTruthy(idAttr) {
        var id := NumberOf(idAttr);
        if id.Some? {
          var deleted := DeleteCardFromState(key, id.value);
          if !deleted {
            ghost var target := DeleteFromAny(cards, id.value, order);
            var i := 0;
            while i < |order|
              invariant 0 <= i <= |order|
              invariant DeleteFromAny(cards, id.value, order[i..]) == target
              invariant nextId == old(nextId) && weekVisibility == old(weekVisibility)
            {
              assert order[i..][1..] == order[i + 1..];
              deleted := DeleteCardFromState(order[i], id.value);
              if deleted {
                break;
              }
              i := i + 1;
            }
            assert cards == target.cards;
          }
        }
      }
      SyncCurrentMonth(cells);
    }

    /** Splices the `idx`-th card out of day `oldKey` and pushes it onto day `newKey`. */
    method Relocate(oldKey: string, newKey: string, idx: int)
      requires 0 <= idx < |CardsFor(cards, oldKey)|
      modifies this
      ensures cards == AppendTo(Detach(old(cards), oldKey, idx), newKey, CardsFor(old(cards), oldKey)[idx])
      ensures nextId == old(nextId) && weekVisibility == old(weekVisibility)
    {
      var oldList := CardsFor(cards, oldKey);
      var moved := oldList[idx];
      oldList := RemoveAt(oldList, idx);
      if |oldList| == 0 {
        cards := cards - {oldKey};
      } else {
        cards := cards[oldKey := oldList];
      }
      var newList := EnsureCardList(newKey);
      cards := cards[newKey := newList + [moved]];
    }

    /** The drop handler's bookkeeping for one dragged card element. */
    method MoveCard(oldKey: string, newKey: string, idAttr: IdAttr)
      modifies this
      ensures cards == MoveOne(old(cards), oldKey, newKey, NumberOf(idAttr))
      ensures nextId == old(nextId) && weekVisibility == old(weekVisibility)
    {
      ghost var m := cards;
      var id := NumberOf(idAttr);
      if oldKey != "" && oldKey != newKey && id.Some? {
        var idx := FindCardIndex(CardsFor(cards, oldKey), id.value);
        if idx >= 0 {
          Relocate(oldKey, newKey, idx);
          assert cards == MoveOne(m, oldKey, newKey, id);
        } else {
          assert MoveOne(m, oldKey, newKey, id) == m;
        }
      } else {
        assert MoveOne(m, oldKey, newKey, id) == m;
      }
    }

    /** The drop handler's bookkeeping: each dragged card in turn moves from its day to `newKey`. */
    method DropCards(newKey: string, dragged: seq<DraggedCard>)
      modifies this
      ensures cards == if |dragged| == 0 || newKey == "" then old(cards) else DropAll(old(cards), newKey, dragged)
      ensures nextId == old(nextId) && weekVisibility == old(weekVisibility)
    {
      if |dragged| == 0 || newKey == "" {
        return;
      }
      var i := 0;
      while i < |dragged|
        invariant 0 <= i <= |dragged|
        invariant cards == DropAll(old(cards), newKey, dragged[..i])
        invariant nextId == old(nextId) && weekVisibility == old(weekVisibility)
      {
        assert dragged[..i + 1][..i] == dragged[..i];
        MoveCard(dragged[i].date, newKey, dragged[i].idAttr);
        i := i + 1;
      }
      assert dragged[..i] == dragged;
    }

    /** A click on a week header: the row's saved override becomes the opposite of how it renders now. */
    method ToggleWeekRow(monthKey: string, row: nat, currentlyCollapsed: bool)
      modifies this
      ensures weekVisibility == ToggledVisibility(old(weekVisibility), monthKey, row, currentlyCollapsed)
      ensures nextId == old(nextId) && cards == old(cards)
    {
      ghost var wv := weekVisibility;
      if monthKey !in weekVisibility {
        weekVisibility := weekVisibility[monthKey := map[]];
      }
      var rows := weekVisibility[monthKey];
      if currentlyCollapsed {
        weekVisibility := weekVisibility[monthKey := rows[row := true]];
      } else {
        weekVisibility := weekVisibility[monthKey := rows[row := false]];
      }
      assert weekVisibility == wv[monthKey := rows[row := currentlyCollapsed]];
    }

    /**
     * The colour button: the element takes the next palette colour, its card is synced, and
     * the store is reconciled with the rendered `cells`.
     */
    method PressColor(date: string, v: VisualCard, cells: seq<DayCell>) returns (recolored: VisualCard)
      modifies this
      ensures recolored == v.(colorAttr := NextColor(v.colorAttr))
      ensures cards == Reconcile(SyncOne(old(cards), date, recolored), cells)
      ensures nextId == old(nextId) && weekVisibility == old(weekVisibility)
    {
      recolored := v.(colorAttr := NextColor(v.colorAttr));
      SyncOneCard(date, recolored);
      SyncCurrentMonth(cells);
    }

    /** A double click: the element's done mark flips, its card is synced, and the store is reconciled. */
    method ToggleDone(date: string, v: VisualCard, cells: seq<DayCell>) returns (toggled: VisualCard)
      modifies this
      ensures toggled == v.(done := !v.done)
      ensures cards == Reconcile(SyncOne(old(cards), date, toggled), cells)
      ensures nextId == old(nextId) && weekVisibility == old(weekVisibility)
    {
      toggled := v.(done := !v.done);
      SyncOneCard(date, toggled);
      SyncCurrentMonth(cells);
    }
  }
}
