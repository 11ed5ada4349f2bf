/**
 * The card store's value: date key to the ordered cards of that day (`state.cards`), and the
 * operations on it as functions of the old value: lookup, upsert, delete with its fallback scan,
 * the drop handler's relocation and reconciliation from the visual truth.
 */
module Buckets {
  import opened Wrappers
  import opened Cards

  /** `state.cards`. */
  type Buckets = map<string, seq<Card>>

  /** `getCardsForDate`: the stored list, or the empty list for a day without one. */
  function CardsFor(m: Buckets, key: string): (list: seq<Card>)
    ensures key in m ==> list == m[key]
    ensures key !in m ==> list == []
  {
    if key in m then m[key] else []
  }

  /** The store invariant the deleting operations keep: no day is stored with an empty list. */
  ghost predicate NoEmptyBuckets(m: Buckets)
  {
    forall k :: k in m ==> |m[k]| > 0
  }

  /** Every date other than `key` reads the same in `m2` as in `m1`. */
  ghost predicate OnlyChanged(m1: Buckets, m2: Buckets, key: string)
  {
    forall k :: k != key ==> CardsFor(m2, k) == CardsFor(m1, k)
  }

  predicate HasId(s: seq<Card>, id: int)
  {
    exists i :: 0 <= i < |s| && s[i].id == id
  }

  /** The number of cards in `s` that carry `id`. */
  function CountId(s: seq<Card>, id: int): nat
  {
    if |s| == 0 then 0
    else CountId(s[..|s| - 1], id) + (if s[|s| - 1].id == id then 1 else 0)
  }

  // ---------------------------------------------------------------- lookup by id

  /** `list.findIndex((c) => c.id === id)`: the first position holding `id`, or -1. */
  function FirstIndex(s: seq<Card>, id: int): (r: int)
    ensures -1 <= r < |s|
    ensures r == -1 <==> !HasId(s, id)
    ensures r >= 0 ==> s[r].id == id && forall j :: 0 <= j < r ==> s[j].id != id
    decreases |s|
  {
    if |s| == 0 then -1
    else if s[0].id == id then 0
    else
      var r := FirstIndex(s[1..], id);
      assert forall j :: 1 <= j < |s| ==> s[j] == s[1..][j - 1];
      if r < 0 then -1 else r + 1
  }

  /** The `findIndex` loop. */
  method FindCardIndex(s: seq<Card>, id: int) returns (idx: int)
    ensures idx == FirstIndex(s, id)
  {
    var i := 0;
    while i < |s|
      invariant 0 <= i <= |s|
      invariant forall j :: 0 <= j < i ==> s[j].id != id
    {
      if s[i].id == id {
        return i;
      }
      i := i + 1;
    }
    return -1;
  }

  // ---------------------------------------------------------------- upsert

  /**
   * `upsertCard` on one day's list: a card whose id is already there takes the first such
   * card's place (length and position kept); a new id is appended at the end.
   */
  function Upserted(s: seq<Card>, c: Card): (r: seq<Card>)
    ensures |r| == if HasId(s, c.id) then |s| else |s| + 1
    ensures FirstIndex(r, c.id) == if HasId(s, c.id) then FirstIndex(s, c.id) else |s|
    ensures FirstIndex(r, c.id) >= 0 && r[FirstIndex(r, c.id)] == c
    ensures forall j :: 0 <= j < |s| && j != FirstIndex(r, c.id) ==> r[j] == s[j]
  {
    var i := FirstIndex(s, c.id);
    if i >= 0 then
      var r := s[i := c];
      assert forall j :: 0 <= j < i ==> r[j].id != c.id;
      assert r[i] == c;
      r
    else
      assert forall j :: 0 <= j < |s| ==> (s + [c])[j].id != c.id;
      assert (s + [c])[|s|] == c;
      s + [c]
  }

  /** Upserting the same card twice is upserting it once. */
  lemma UpsertedIdempotent(s: seq<Card>, c: Card)
    ensures Upserted(Upserted(s, c), c) == Upserted(s, c)
  {
    var r := Upserted(s, c);
    assert HasId(r, c.id) by {
      assert r[FirstIndex(r, c.id)].id == c.id;
    }
  }

  /** `upsertCard` on the store: only the card's day changes, and that day then exists. */
  function Upsert(m: Buckets, key: string, c: Card): (r: Buckets)
    ensures key in r && r[key] == Upserted(CardsFor(m, key), c)
    ensures OnlyChanged(m, r, key)
    ensures r.Keys == m.Keys + {key}
    ensures NoEmptyBuckets(m) ==> NoEmptyBuckets(r)
  {
    m[key := Upserted(CardsFor(m, key), c)]
  }

  // ---------------------------------------------------------------- delete

  /** `list.filter((c) => c.id !== id)`: every card with `id` removed, the others kept in order. */
  function WithoutId(s: seq<Card>, id: int): (r: seq<Card>)
    ensures |r| <= |s|
    ensures !HasId(r, id)
    ensures |r| < |s| <==> HasId(s, id)
    ensures !HasId(s, id) ==> r == s
    ensures forall c :: c in r ==> c in s
  {
    if |s| == 0 then []
    else
      var init := WithoutId(s[..|s| - 1], id);
      var last := s[|s| - 1];
      assert s == s[..|s| - 1] + [last];
      assert HasId(s, id) <==> HasId(s[..|s| - 1], id) || last.id == id by {
        if HasId(s, id) && last.id != id {
          var i :| 0 <= i < |s| && s[i].id == id;
          assert s[..|s| - 1][i].id == id;
        }
        if HasId(s[..|s| - 1], id) {
          var i :| 0 <= i < |s| - 1 && s[..|s| - 1][i].id == id;
          assert s[i].id == id;
        }
      }
      if last.id == id then init else init + [last]
  }

  /** Filtering a concatenation filters each part: the kept cards stay in their order. */
  lemma {:induction false} WithoutIdAppend(a: seq<Card>, b: seq<Card>, id: int)
    ensures WithoutId(a + b, id) == WithoutId(a, id) + WithoutId(b, id)
    decreases |b|
  {
    if |b| == 0 {
      assert a + b == a;
    } else {
      var b' := b[..|b| - 1];
      assert (a + b)[..|a + b| - 1] == a + b';
      WithoutIdAppend(a, b', id);
    }
  }

  /** Filtering removes exactly the cards with `id`: none of those survive, and every other id keeps its count. */
  lemma {:induction false} WithoutIdCounts(s: seq<Card>, id: int, other: int)
    ensures CountId(WithoutId(s, id), id) == 0
    ensures other != id ==> CountId(WithoutId(s, id), other) == CountId(s, other)
    decreases |s|
  {
    if |s| > 0 {
      var init := s[..|s| - 1];
      WithoutIdCounts(init, id, other);
      var w := WithoutId(init, id);
      if s[|s| - 1].id != id {
        assert (w + [s[|s| - 1]])[..|w|] == w;
      }
    }
  }

  /** The result of `deleteCardFromState`: whether a card went, and the new store. */
  datatype Deletion = Deletion(deleted: bool, cards: Buckets)

  /**
   * `deleteCardFromState`: a day without a list reports false and changes nothing; otherwise
   * every card with `id` leaves that day, the answer is whether the list got shorter, and the
   * day's key goes when its list is left empty.
   */
  function Delete(m: Buckets, key: string, id: int): (r: Deletion)
    ensures key !in m ==> r == Deletion(false, m)
    ensures key in m ==> (r.deleted <==> HasId(m[key], id))
    ensures CardsFor(r.cards, key) == WithoutId(CardsFor(m, key), id)
    ensures key in r.cards ==> |r.cards[key]| > 0
    ensures OnlyChanged(m, r.cards, key)
    ensures r.cards.Keys <= m.Keys
  {
    if key !in m then Deletion(false, m)
    else
      var rest := WithoutId(m[key], id);
      Deletion(|rest| < |m[key]|, if |rest| == 0 then m - {key} else m[key := rest])
  }

  /** In a store without empty days, a delete that finds nothing leaves the store exactly as it was. */
  lemma FailedDeleteChangesNothing(m: Buckets, key: string, id: int)
    requires NoEmptyBuckets(m)
    requires !Delete(m, key, id).deleted
    ensures Delete(m, key, id).cards == m
  {
    if key in m {
      assert WithoutId(m[key], id) == m[key];
      assert m[key := m[key]] == m;
    }
  }

  /** Delete keeps the store free of empty days. */
  lemma DeleteKeepsNoEmptyBuckets(m: Buckets, key: string, id: int)
    requires NoEmptyBuckets(m)
    ensures NoEmptyBuckets(Delete(m, key, id).cards)
  {
  }

  /** The delete handler's fallback: try each key of `order` in turn and stop at the first deletion. */
  function DeleteFromAny(m: Buckets, id: int, order: seq<string>): Deletion
    decreases |order|
  {
    if |order| == 0 then Deletion(false, m)
    else
      var r := Delete(m, order[0], id);
      if r.deleted then r else DeleteFromAny(r.cards, id, order[1..])
  }

  /** The first key of `order` whose day holds a card with `id`. */
  function FirstHolder(m: Buckets, id: int, order: seq<string>): Option<string>
    decreases |order|
  {
    if |order| == 0 then None
    else if HasId(CardsFor(m, order[0]), id) then Some(order[0])
    else FirstHolder(m, id, order[1..])
  }

  /** Stores that read the same on every date have the same first holder. */
  lemma {:induction false} FirstHolderReadsDays(m1: Buckets, m2: Buckets, id: int, order: seq<string>)
    requires forall k :: CardsFor(m1, k) == CardsFor(m2, k)
    ensures FirstHolder(m1, id, order) == FirstHolder(m2, id, order)
    decreases |order|
  {
    if |order| > 0 {
      FirstHolderReadsDays(m1, m2, id, order[1..]);
    }
  }

  lemma {:induction false} FirstHolderHolds(m: Buckets, id: int, order: seq<string>)
    ensures FirstHolder(m, id, order).Some? ==>
      FirstHolder(m, id, order).value in order && HasId(CardsFor(m, FirstHolder(m, id, order).value), id)
    ensures FirstHolder(m, id, order).None? ==> forall k :: k in order ==> !HasId(CardsFor(m, k), id)
    decreases |order|
  {
    if |order| > 0 {
      FirstHolderHolds(m, id, order[1..]);
    }
  }

  /**
   * The fallback deletes from the first day (in `order`) that holds the card and from no other:
   * every other day reads as before.
   */
  lemma {:induction false} DeleteFromAnyTouchesOne(m: Buckets, id: int, order: seq<string>)
    ensures var r := DeleteFromAny(m, id, order);
      var h := FirstHolder(m, id, order);
      && r.deleted == h.Some?
      && (h.None? ==> forall k :: CardsFor(r.cards, k) == CardsFor(m, k))
      && (h.Some? ==> OnlyChanged(m, r.cards, h.value)
                      && CardsFor(r.cards, h.value) == WithoutId(CardsFor(m, h.value), id))
    decreases |order|
  {
    if |order| > 0 {
      var r1 := Delete(m, order[0], id);
      if !r1.deleted {
        assert forall k :: CardsFor(r1.cards, k) == CardsFor(m, k);
        DeleteFromAnyTouchesOne(r1.cards, id, order[1..]);
        FirstHolderReadsDays(r1.cards, m, id, order[1..]);
      }
    }
  }

  /**
   * The delete button's bookkeeping: delete from the card's own day, and when that misses,
   * fall back to scanning the days in `order`.
   */
  function DeleteCard(m: Buckets, key: string, id: int, order: seq<string>): Deletion
  {
    var r := Delete(m, key, id);
    if r.deleted then r else DeleteFromAny(r.cards, id, order)
  }

  /**
   * When `order` lists every day left after the first delete (the handler reads the keys only
   * then): the card is deleted iff some day held it, exactly one day changes (losing the card),
   * and a total miss means no day holds the card.
   */
  lemma DeleteCardSpec(m: Buckets, key: string, id: int, order: seq<string>)
    requires forall k :: k in Delete(m, key, id).cards ==> k in order
    ensures var r := DeleteCard(m, key, id, order);
      && (r.deleted <==> exists k :: HasId(CardsFor(m, k), id))
      && (exists k0 :: OnlyChanged(m, r.cards, k0))
      && (r.deleted ==> exists k0 :: OnlyChanged(m, r.cards, k0) && HasId(CardsFor(m, k0), id)
                          && CardsFor(r.cards, k0) == WithoutId(CardsFor(m, k0), id))
      && (!r.deleted ==> forall k :: !HasId(CardsFor(m, k), id) && CardsFor(r.cards, k) == CardsFor(m, k))
  {
    var r1 := Delete(m, key, id);
    var r := DeleteCard(m, key, id, order);
    if r1.deleted {
      assert OnlyChanged(m, r.cards, key) && HasId(CardsFor(m, key), id);
    } else {
      assert forall k :: CardsFor(r1.cards, k) == CardsFor(m, k);
      DeleteFromAnyTouchesOne(r1.cards, id, order);
      FirstHolderReadsDays(r1.cards, m, id, order);
      FirstHolderHolds(m, id, order);
      var h := FirstHolder(m, id, order);
      if h.Some? {
        assert OnlyChanged(m, r.cards, h.value);
      } else {
        forall k ensures !HasId(CardsFor(m, k), id) {
          if k !in order {
            assert k !in r1.cards;
          }
        }
        assert OnlyChanged(m, r.cards, key);
      }
    }
  }

  /**
   * The delete button's bookkeeping from the element's attributes: nothing happens without a
   * date or a truthy id attribute, or when the id is not a finite number.
   */
  function DeleteHandled(m: Buckets, key: string, idAttr: IdAttr, order: seq<string>): (r: Buckets)
    ensures key == "" || !idAttr.Numeral? ==> r == m
    ensures key != "" && idAttr.Numeral? ==> r == DeleteCard(m, key, idAttr.n, order).cards
  {
    if key == "" || !IsTruthy(idAttr) then m
    else
      match NumberOf(idAttr)
      case None => m
      case Some(id) => DeleteCard(m, key, id, order).cards
  }

  // ---------------------------------------------------------------- card count

  /** The number of cards stored on the days in `keys`. */
  ghost function CardsOn(m: Buckets, keys: set<string>): nat
    decreases keys
  {
    if keys == {} then 0
    else
      var k :| k in keys;
      |CardsFor(m, k)| + CardsOn(m, keys - {k})
  }

  /** The number of cards stored over all days. */
  ghost function Total(m: Buckets): nat
  {
    CardsOn(m, m.Keys)
  }

  lemma {:induction false} CardsOnRemove(m: Buckets, keys: set<string>, k: string)
    requires k in keys
    ensures CardsOn(m, keys) == |CardsFor(m, k)| + CardsOn(m, keys - {k})
    decreases keys
  {
    var k' :| k' in keys && CardsOn(m, keys) == |CardsFor(m, k')| + CardsOn(m, keys - {k'});
    if k' != k {
      CardsOnRemove(m, keys - {k'}, k);
      CardsOnRemove(m, keys - {k}, k');
      assert keys - {k'} - {k} == keys - {k} - {k'};
    }
  }

  lemma {:induction false} CardsOnReadsDays(m1: Buckets, m2: Buckets, keys: set<string>)
    requires forall k :: k in keys ==> CardsFor(m1, k) == CardsFor(m2, k)
    ensures CardsOn(m1, keys) == CardsOn(m2, keys)
    decreases keys
  {
    if keys != {} {
      var k :| k in keys;
      CardsOnRemove(m1, keys, k);
      CardsOnRemove(m2, keys, k);
      CardsOnReadsDays(m1, m2, keys - {k});
    }
  }

  /** The total counts each day once: it is that day's length plus the total of the other days. */
  lemma TotalSplit(m: Buckets, k: string, m2: Buckets)
    requires OnlyChanged(m, m2, k)
    requires m2.Keys - {k} == m.Keys - {k}
    ensures Total(m) == |CardsFor(m, k)| + CardsOn(m, m.Keys - {k})
    ensures Total(m2) == |CardsFor(m2, k)| + CardsOn(m, m.Keys - {k})
  {
    if k in m {
      CardsOnRemove(m, m.Keys, k);
    } else {
      assert m.Keys - {k} == m.Keys;
    }
    if k in m2 {
      CardsOnRemove(m2, m2.Keys, k);
    } else {
      assert m2.Keys - {k} == m2.Keys;
    }
    CardsOnReadsDays(m2, m, m.Keys - {k});
  }

  /** Replacing one day's list changes the total by the difference in that day's length. */
  lemma TotalUpdate(m: Buckets, k: string, v: seq<Card>)
    ensures Total(m[k := v]) == Total(m) - |CardsFor(m, k)| + |v|
  {
    TotalSplit(m, k, m[k := v]);
  }

  /** Dropping one day removes exactly that day's cards from the total. */
  lemma TotalWithout(m: Buckets, k: string)
    ensures Total(m - {k}) == Total(m) - |CardsFor(m, k)|
  {
    TotalSplit(m, k, m - {k});
  }

  lemma {:induction false} CountIdAppend(a: seq<Card>, b: seq<Card>, id: int)
    ensures CountId(a + b, id) == CountId(a, id) + CountId(b, id)
    decreases |b|
  {
    if |b| == 0 {
      assert a + b == a;
    } else {
      assert (a + b)[..|a + b| - 1] == a + b[..|b| - 1];
      CountIdAppend(a, b[..|b| - 1], id);
    }
  }

  // ---------------------------------------------------------------- drag and drop

  /** `list.splice(i, 1)`: the list without its `i`-th card. */
  function RemoveAt(s: seq<Card>, i: int): (r: seq<Card>)
    requires 0 <= i < |s|
    ensures |r| == |s| - 1
    ensures s == r[..i] + [s[i]] + r[i..]
  {
    s[..i] + s[i + 1..]
  }

  /** Whether the drop handler relocates this dragged card: it comes from another, named day that holds it. */
  predicate Moves(m: Buckets, oldKey: string, newKey: string, id: Option<int>)
  {
    oldKey != "" && oldKey != newKey && id.Some? && HasId(CardsFor(m, oldKey), id.value)
  }

  /** Splices the `i`-th card out of day `key`; the day goes when that empties it. */
  function Detach(m: Buckets, key: string, i: int): Buckets
    requires 0 <= i < |CardsFor(m, key)|
  {
    var rest := RemoveAt(CardsFor(m, key), i);
    if |rest| == 0 then m - {key} else m[key := rest]
  }

  /** `ensureCardList(key).push(c)`. */
  function AppendTo(m: Buckets, key: string, c: Card): Buckets
  {
    m[key := CardsFor(m, key) + [c]]
  }

  /**
   * The drop handler's bookkeeping for one dragged card: the first card of the old day with
   * the card's id is spliced out (the old day's key goes when that empties it) and appended
   * to the new day; a card without an old day, already on the new day, without a finite id
   * or not found changes nothing.
   */
  function MoveOne(m: Buckets, oldKey: string, newKey: string, id: Option<int>): (r: Buckets)
    ensures !Moves(m, oldKey, newKey, id) ==> r == m
  {
    if oldKey == "" || oldKey == newKey || id.None? then m
    else
      var src := CardsFor(m, oldKey);
      var i := FirstIndex(src, id.value);
      if i < 0 then m
      else AppendTo(Detach(m, oldKey, i), newKey, src[i])
  }

  /**
   * A move takes the first card with the id out of the old day, keeping the others in order,
   * appends it to the new day, and leaves every other day as it was.
   */
  lemma MoveOneRelocates(m: Buckets, oldKey: string, newKey: string, id: int)
    requires Moves(m, oldKey, newKey, Some(id))
    ensures var r := MoveOne(m, oldKey, newKey, Some(id));
      var src := CardsFor(m, oldKey);
      var i := FirstIndex(src, id);
      && CardsFor(r, oldKey) == RemoveAt(src, i)
      && CardsFor(r, newKey) == CardsFor(m, newKey) + [src[i]]
      && (forall k :: k != oldKey && k != newKey ==> CardsFor(r, k) == CardsFor(m, k))
      && (oldKey in r <==> |src| > 1)
      && newKey in r
      && r.Keys <= m.Keys + {newKey}
  {
  }

  /** A move keeps the store free of empty days. */
  lemma MoveOneKeepsNoEmptyBuckets(m: Buckets, oldKey: string, newKey: string, id: Option<int>)
    requires NoEmptyBuckets(m)
    ensures NoEmptyBuckets(MoveOne(m, oldKey, newKey, id))
  {
    if Moves(m, oldKey, newKey, id) {
      MoveOneRelocates(m, oldKey, newKey, id.value);
    }
  }

  /** Moving a card keeps the number of stored cards. */
  lemma MoveOneKeepsTotal(m: Buckets, oldKey: string, newKey: string, id: Option<int>)
    ensures Total(MoveOne(m, oldKey, newKey, id)) == Total(m)
  {
    if Moves(m, oldKey, newKey, id) {
      var src := CardsFor(m, oldKey);
      var i := FirstIndex(src, id.value);
      var rest := RemoveAt(src, i);
      var m1 := if |rest| == 0 then m - {oldKey} else m[oldKey := rest];
      if |rest| == 0 {
        TotalWithout(m, oldKey);
      } else {
        TotalUpdate(m, oldKey, rest);
      }
      TotalUpdate(m1, newKey, CardsFor(m1, newKey) + [src[i]]);
    }
  }

  /** Moving a card takes one card with its id out of the old day and puts one into the new day. */
  lemma MoveOneShiftsCard(m: Buckets, oldKey: string, newKey: string, id: int)
    requires Moves(m, oldKey, newKey, Some(id))
    ensures var r := MoveOne(m, oldKey, newKey, Some(id));
      && CountId(CardsFor(r, oldKey), id) == CountId(CardsFor(m, oldKey), id) - 1
      && CountId(CardsFor(r, newKey), id) == CountId(CardsFor(m, newKey), id) + 1
  {
    MoveOneRelocates(m, oldKey, newKey, id);
    var src := CardsFor(m, oldKey);
    var i := FirstIndex(src, id);
    var rest := RemoveAt(src, i);
    CountIdAppend(rest[..i] + [src[i]], rest[i..], id);
    CountIdAppend(rest[..i], [src[i]], id);
    CountIdAppend(rest[..i], rest[i..], id);
    assert rest[..i] + rest[i..] == rest;
    assert CountId([src[i]], id) == 1 by {
      assert [src[i]][..0] == [];
    }
    CountIdAppend(CardsFor(m, newKey), [src[i]], id);
  }

  /**
   * Dragging a card to another day and straight back restores the other day and leaves the
   * card at the end of its own day, the rest of that day unchanged.
   */
  lemma MoveThereAndBack(m: Buckets, a: string, b: string, id: int)
    requires Moves(m, a, b, Some(id)) && b != ""
    requires !HasId(CardsFor(m, b), id)
    ensures var src := CardsFor(m, a);
      var i := FirstIndex(src, id);
      var r := MoveOne(MoveOne(m, a, b, Some(id)), b, a, Some(id));
      && CardsFor(r, b) == CardsFor(m, b)
      && CardsFor(r, a) == RemoveAt(src, i) + [src[i]]
      && forall k :: CardsFor(r, k) == CardsFor(m, k) || k == a
  {
    var src := CardsFor(m, a);
    var i := FirstIndex(src, id);
    var r1 := MoveOne(m, a, b, Some(id));
    MoveOneRelocates(m, a, b, id);
    var dst := CardsFor(m, b);
    assert CardsFor(r1, b) == dst + [src[i]];
    assert HasId(dst + [src[i]], id) by {
      assert (dst + [src[i]])[|dst|].id == id;
    }
    assert FirstIndex(dst + [src[i]], id) == |dst| by {
      assert forall j :: 0 <= j < |dst| ==> (dst + [src[i]])[j] == dst[j];
    }
    assert RemoveAt(dst + [src[i]], |dst|) == dst;
    MoveOneRelocates(r1, b, a, id);
  }

  /** One dragged card element: the day it was on and its card id attribute. */
  datatype DraggedCard = DraggedCard(date: string, idAttr: IdAttr)

  /** The drop handler's bookkeeping for all dragged cards, in their order. */
  function DropAll(m: Buckets, newKey: string, dragged: seq<DraggedCard>): Buckets
    decreases |dragged|
  {
    if |dragged| == 0 then m
    else
      var last := dragged[|dragged| - 1];
      MoveOne(DropAll(m, newKey, dragged[..|dragged| - 1]), last.date, newKey, NumberOf(last.idAttr))
  }

  /**
   * A drop keeps the number of stored cards and the store free of empty days, and leaves every
   * day that is neither the target nor the origin of a dragged card as it was.
   */
  lemma {:induction false} DropAllKeeps(m: Buckets, newKey: string, dragged: seq<DraggedCard>)
    ensures var r := DropAll(m, newKey, dragged);
      && Total(r) == Total(m)
      && (NoEmptyBuckets(m) ==> NoEmptyBuckets(r))
      && forall k :: k != newKey && (forall j :: 0 <= j < |dragged| ==> dragged[j].date != k) ==>
           CardsFor(r, k) == CardsFor(m, k)
    decreases |dragged|
  {
    if |dragged| > 0 {
      var init := dragged[..|dragged| - 1];
      var last := dragged[|dragged| - 1];
      DropAllKeeps(m, newKey, init);
      var mid := DropAll(m, newKey, init);
      MoveOneKeepsTotal(mid, last.date, newKey, NumberOf(last.idAttr));
      if NoEmptyBuckets(m) {
        MoveOneKeepsNoEmptyBuckets(mid, last.date, newKey, NumberOf(last.idAttr));
      }
      if Moves(mid, last.date, newKey, NumberOf(last.idAttr)) {
        MoveOneRelocates(mid, last.date, newKey, NumberOf(last.idAttr).value);
      }
      forall k | k != newKey && (forall j :: 0 <= j < |dragged| ==> dragged[j].date != k)
        ensures CardsFor(DropAll(m, newKey, dragged), k) == CardsFor(m, k)
      {
        assert forall j :: 0 <= j < |init| ==> init[j] == dragged[j];
        assert last.date != k by {
          assert dragged[|dragged| - 1] == last;
        }
      }
    }
  }

  // ---------------------------------------------------------------- reconciliation

  /** A card element as rendered: its id attribute, its text, its done mark and its colour attribute. */
  datatype VisualCard = VisualCard(idAttr: IdAttr, text: string, done: bool, colorAttr: string)

  /** A rendered day cell: its date attribute ("" when absent) and its card elements in order. */
  datatype DayCell = DayCell(date: string, cards: seq<VisualCard>)

  /** The stored card read off an element: `dataset.color || "default"`. */
  function Harvested(v: VisualCard, id: int): (c: Card)
    ensures c.id == id && c.text == v.text && c.done == v.done
    ensures c.color == (if v.colorAttr == "" then "default" else v.colorAttr)
  {
    Card(id, v.text, v.done, if v.colorAttr == "" then "default" else v.colorAttr)
  }

  /**
   * `syncOneCardFromDom`: an element without a date, with a falsy id attribute or with an id
   * that is not a finite number changes nothing; any other element's card is upserted into
   * its day.
   */
  function SyncOne(m: Buckets, date: string, v: VisualCard): (r: Buckets)
    ensures date == "" || !v.idAttr.Numeral? ==> r == m
    ensures date != "" && v.idAttr.Numeral? ==>
      date in r && r[date] == Upserted(CardsFor(m, date), Harvested(v, v.idAttr.n)) && OnlyChanged(m, r, date)
  {
    if date == "" || !IsTruthy(v.idAttr) then m
    else
      match NumberOf(v.idAttr)
      case None => m
      case Some(id) => Upsert(m, date, Harvested(v, id))
  }

  /** Syncing the same element twice is syncing it once. */
  lemma SyncOneIdempotent(m: Buckets, date: string, v: VisualCard)
    ensures SyncOne(SyncOne(m, date, v), date, v) == SyncOne(m, date, v)
  {
    if date != "" && v.idAttr.Numeral? {
      UpsertedIdempotent(CardsFor(m, date), Harvested(v, v.idAttr.n));
    }
  }

  predicate HasFiniteId(vs: seq<VisualCard>)
  {
    exists j :: 0 <= j < |vs| && NumberOf(vs[j].idAttr).Some?
  }

  /** The list a day cell yields: one card per element with a finite id, in element order. */
  function Harvest(vs: seq<VisualCard>): (r: seq<Card>)
    ensures |r| <= |vs|
  {
    if |vs| == 0 then []
    else
      var n := NumberOf(vs[|vs| - 1].idAttr);
      if n.Some? then Harvest(vs[..|vs| - 1]) + [Harvested(vs[|vs| - 1], n.value)]
      else Harvest(vs[..|vs| - 1])
  }

  /** A cell yields an empty list exactly when none of its elements has a finite id. */
  lemma {:induction false} HarvestEmptyIff(vs: seq<VisualCard>)
    ensures |Harvest(vs)| > 0 <==> HasFiniteId(vs)
    decreases |vs|
  {
    if |vs| > 0 {
      var init := vs[..|vs| - 1];
      HarvestEmptyIff(init);
      if HasFiniteId(vs) && NumberOf(vs[|vs| - 1].idAttr).None? {
        var j :| 0 <= j < |vs| && NumberOf(vs[j].idAttr).Some?;
        assert NumberOf(init[j].idAttr).Some?;
      }
      if HasFiniteId(init) {
        var j :| 0 <= j < |init| && NumberOf(init[j].idAttr).Some?;
        assert vs[j] == init[j];
      }
    }
  }

  /** Harvesting works element by element: the cards of a concatenation are the cards of its parts, in order. */
  lemma {:induction false} HarvestAppend(a: seq<VisualCard>, b: seq<VisualCard>)
    ensures Harvest(a + b) == Harvest(a) + Harvest(b)
    decreases |b|
  {
    if |b| == 0 {
      assert a + b == a;
    } else {
      assert (a + b)[..|a + b| - 1] == a + b[..|b| - 1];
      HarvestAppend(a, b[..|b| - 1]);
    }
  }

  /** When every element has a finite id, the cell yields one card per element, each read off its element. */
  lemma {:induction false} HarvestKeepsAll(vs: seq<VisualCard>)
    requires forall j :: 0 <= j < |vs| ==> NumberOf(vs[j].idAttr).Some?
    ensures |Harvest(vs)| == |vs|
    ensures forall j :: 0 <= j < |vs| ==> Harvest(vs)[j] == Harvested(vs[j], NumberOf(vs[j].idAttr).value)
    decreases |vs|
  {
    if |vs| > 0 {
      var init := vs[..|vs| - 1];
      assert forall j :: 0 <= j < |init| ==> init[j] == vs[j];
      HarvestKeepsAll(init);
    }
  }

  /**
   * One cell of `syncCurrentMonthFromDom`: a cell without a date is skipped, a cell without
   * card elements loses its day, any other cell's day becomes the harvested list.
   */
  function ApplyCell(m: Buckets, cell: DayCell): Buckets
  {
    if cell.date == "" then m
    else if |cell.cards| == 0 then m - {cell.date}
    else m[cell.date := Harvest(cell.cards)]
  }

  /** `syncCurrentMonthFromDom`: every rendered cell applied in document order. */
  function Reconcile(m: Buckets, cells: seq<DayCell>): Buckets
    decreases |cells|
  {
    if |cells| == 0 then m
    else ApplyCell(Reconcile(m, cells[..|cells| - 1]), cells[|cells| - 1])
  }

  /** What the rendered cells decide about one day. */
  datatype Slot = Untouched | Cleared | Filled(cards: seq<Card>)

  /** The verdict of the last rendered cell with date `k`, if any. */
  function VisualSlot(cells: seq<DayCell>, k: string): Slot
    decreases |cells|
  {
    if |cells| == 0 || k == "" then Untouched
    else
      var last := cells[|cells| - 1];
      if last.date == k then (if |last.cards| == 0 then Cleared else Filled(Harvest(last.cards)))
      else VisualSlot(cells[..|cells| - 1], k)
  }

  /** Whether day `k` of `r` is what `slot` says, starting from `m`. */
  predicate Agrees(r: Buckets, m: Buckets, k: string, slot: Slot)
  {
    match slot
    case Untouched => (k in r <==> k in m) && CardsFor(r, k) == CardsFor(m, k)
    case Cleared => k !in r
    case Filled(list) => k in r && r[k] == list
  }

  /**
   * After reconciliation every day is what its last rendered cell shows: days without a
   * rendered cell are kept, a cell without cards removes its day, any other cell sets it.
   */
  lemma {:induction false} ReconcileAt(m: Buckets, cells: seq<DayCell>, k: string)
    ensures Agrees(Reconcile(m, cells), m, k, VisualSlot(cells, k))
    decreases |cells|
  {
    if |cells| > 0 {
      ReconcileAt(m, cells[..|cells| - 1], k);
    }
  }

  /** Two stores that agree with the same slot on every day are equal. */
  lemma SameSlotsSameStore(r1: Buckets, r2: Buckets, m1: Buckets, m2: Buckets, cells: seq<DayCell>)
    requires forall k :: Agrees(r1, m1, k, VisualSlot(cells, k))
    requires forall k :: Agrees(r2, m2, k, VisualSlot(cells, k))
    requires forall k :: (k in m1 <==> k in m2) && CardsFor(m1, k) == CardsFor(m2, k)
    ensures r1 == r2
  {
    forall k | k in r1
      ensures k in r2 && r1[k] == r2[k]
    {
      assert Agrees(r1, m1, k, VisualSlot(cells, k)) && Agrees(r2, m2, k, VisualSlot(cells, k));
    }
    forall k | k in r2
      ensures k in r1
    {
      assert Agrees(r1, m1, k, VisualSlot(cells, k)) && Agrees(r2, m2, k, VisualSlot(cells, k));
    }
  }

  /** Reconciling against the same rendering twice changes nothing the second time. */
  lemma ReconcileIdempotent(m: Buckets, cells: seq<DayCell>)
    ensures Reconcile(Reconcile(m, cells), cells) == Reconcile(m, cells)
  {
    var r1 := Reconcile(m, cells);
    var r2 := Reconcile(r1, cells);
    forall k ensures Agrees(r2, r1, k, VisualSlot(cells, k)) && Agrees(r1, r1, k, VisualSlot(cells, k)) {
      ReconcileAt(r1, cells, k);
      ReconcileAt(m, cells, k);
    }
    SameSlotsSameStore(r2, r1, r1, r1, cells);
  }

  /**
   * Reconciliation keeps the store free of empty days when every rendered cell with cards
   * has one with a finite id; a cell whose elements all lack one stores an empty day.
   */
  lemma ReconcileNoEmptyBuckets(m: Buckets, cells: seq<DayCell>)
    requires NoEmptyBuckets(m)
    ensures NoEmptyBuckets(Reconcile(m, cells)) <==>
      forall k :: VisualSlot(cells, k) != Filled([])
  {
    var r := Reconcile(m, cells);
    forall k ensures Agrees(r, m, k, VisualSlot(cells, k)) {
      ReconcileAt(m, cells, k);
    }
    if !NoEmptyBuckets(r) {
      var k :| k in r && |r[k]| == 0;
      assert VisualSlot(cells, k) == Filled([]);
    }
    if exists k :: VisualSlot(cells, k) == Filled([]) {
      var k :| VisualSlot(cells, k) == Filled([]);
      assert k in r && r[k] == [];
    }
  }
}
