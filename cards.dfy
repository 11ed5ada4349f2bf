/**
 * Cards and the small decision rules of the note board: the colour cycle, id minting,
 * the week-row collapse default and its toggle, and the drag placeholder's slot.
 */
module Cards {
  import opened Wrappers

  /** A stored card (`CardData`). */
  datatype Card = Card(id: int, text: string, done: bool, color: string)

  /**
   * The `data-card-id` attribute of a card element as `Number(...)` sees it: absent, empty,
   * a numeral, or something that reads as NaN.
   */
  datatype IdAttr = NoAttr | EmptyAttr | Numeral(n: int) | NotNumeric

  /** `Number(idStr)` when it is finite: an absent attribute and junk are NaN, the empty string is 0. */
  function NumberOf(a: IdAttr): Option<int>
  {
    match a
    case NoAttr => None
    case EmptyAttr => Some(0)
    case Numeral(n) => Some(n)
    case NotNumeric => None
  }

  /** The attribute string is truthy (non-empty). */
  predicate IsTruthy(a: IdAttr)
  {
    a.Numeral? || a.NotNumeric?
  }

  // ---------------------------------------------------------------- colour cycle

  /** `CARD_COLORS[i]`: "default", "yellow", "green", "pink". */
  function PaletteColor(i: int): string
    requires 0 <= i < 4
  {
    if i == 0 then "default" else if i == 1 then "yellow" else if i == 2 then "green" else "pink"
  }

  /** `CARD_COLORS.indexOf(c)`: the position of `c` in the palette, or -1. */
  function ColorIndex(c: string): (i: int)
    ensures -1 <= i < 4
    ensures i >= 0 ==> PaletteColor(i) == c
    ensures i == -1 ==> forall j :: 0 <= j < 4 ==> PaletteColor(j) != c
  {
    if c == "default" then 0
    else if c == "yellow" then 1
    else if c == "green" then 2
    else if c == "pink" then 3
    else -1
  }

  predicate InPalette(c: string)
  {
    ColorIndex(c) >= 0
  }

  /**
   * The colour button: the card's colour (an empty one counts as "default") is replaced by the
   * palette entry after it, wrapping around; a colour outside the palette restarts at "default".
   */
  function NextColor(current: string): string
  {
    var c := if current == "" then "default" else current;
    PaletteColor((ColorIndex(c) + 1 + 4) % 4)
  }

  /**
   * The next colour is always a palette colour: the successor of a palette colour, "yellow" for an
   * empty colour, and "default" for any colour outside the palette.
   */
  lemma NextColorCases(current: string)
    ensures InPalette(NextColor(current))
    ensures current == "" ==> NextColor(current) == "yellow"
    ensures current != "" && !InPalette(current) ==> NextColor(current) == "default"
    ensures InPalette(current) ==> NextColor(current) == PaletteColor((ColorIndex(current) + 1) % 4)
  {
    var i := (ColorIndex(if current == "" then "default" else current) + 1 + 4) % 4;
    assert ColorIndex(PaletteColor(i)) == i;
  }

  /** The colour after `k` presses of the colour button. */
  function Recolored(c: string, k: nat): string
  {
    if k == 0 then c else NextColor(Recolored(c, k - 1))
  }

  /** The palette index after `i`, wrapping from the last back to the first. */
  function Succ(i: int): int
    requires 0 <= i < 4
  {
    if i == 3 then 0 else i + 1
  }

  /** A palette colour steps to the next palette entry, the last one back to the first. */
  lemma NextColorAt(i: int)
    requires 0 <= i < 4
    ensures NextColor(PaletteColor(i)) == PaletteColor(Succ(i))
  {
    assert ColorIndex(PaletteColor(i)) == i;
  }

  /** Four presses bring a palette colour back to itself. */
  lemma FourPressesReturn(i: int)
    requires 0 <= i < 4
    ensures Recolored(PaletteColor(i), 4) == PaletteColor(i)
  {
    var c := PaletteColor(i);
    NextColorAt(i);
    NextColorAt(Succ(i));
    NextColorAt(Succ(Succ(i)));
    NextColorAt(Succ(Succ(Succ(i))));
    assert Recolored(c, 1) == PaletteColor(Succ(i));
    assert Recolored(c, 2) == PaletteColor(Succ(Succ(i)));
    assert Recolored(c, 3) == PaletteColor(Succ(Succ(Succ(i))));
  }

  /** From a palette colour the cycle has period four: `k + 4` presses give what `k` presses give. */
  lemma {:induction false} RecoloredPeriodic(i: int, k: nat)
    requires 0 <= i < 4
    ensures Recolored(PaletteColor(i), k + 4) == Recolored(PaletteColor(i), k)
  {
    if k == 0 {
      FourPressesReturn(i);
    } else {
      RecoloredPeriodic(i, k - 1);
      assert Recolored(PaletteColor(i), k + 4) == NextColor(Recolored(PaletteColor(i), k - 1 + 4));
    }
  }

  // ---------------------------------------------------------------- new cards

  /** The optional fields a card is created from (`Partial<CardData>`); a non-finite id is `None`. */
  datatype CardInput = CardInput(id: Option<int>, text: Option<string>, done: Option<bool>, color: Option<string>)

  /** The id `createCard` gives a card, and the counter afterwards. */
  datatype Minted = Minted(id: int, nextId: int)

  /** A finite id above zero is kept; anything else takes the counter's value and bumps the counter. */
  function MintId(candidate: Option<int>, nextId: int): (m: Minted)
    ensures candidate.Some? && candidate.value > 0 ==> m == Minted(candidate.value, nextId)
    ensures !(candidate.Some? && candidate.value > 0) ==> m.id == nextId && m.nextId == nextId + 1
  {
    if candidate.Some? && candidate.value > 0 then Minted(candidate.value, nextId)
    else Minted(nextId, nextId + 1)
  }

  /** The card `createCard` records: missing text is "", missing done is false, a missing colour is "default". */
  function CardFrom(input: CardInput, id: int): (c: Card)
    ensures c.id == id
    ensures input.text.Some? ==> c.text == input.text.value
    ensures input.text.None? ==> c.text == ""
    ensures c.done <==> input.done == Some(true)
    ensures input.color.Some? ==> c.color == input.color.value
    ensures input.color.None? ==> c.color == "default"
  {
    Card(id,
      if input.text.Some? then input.text.value else "",
      input.done == Some(true),
      if input.color.Some? then input.color.value else "default")
  }

  // ---------------------------------------------------------------- week rows

  /** `weekVisibility`: month key to the per-row overrides (true = shown, false = collapsed). */
  type WeekVisibility = map<string, map<nat, bool>>

  function SavedVisibility(wv: WeekVisibility, monthKey: string, row: nat): Option<bool>
  {
    if monthKey in wv && row in wv[monthKey] then Some(wv[monthKey][row]) else None
  }

  /** A saved override decides; without one a row is collapsed unless it contains today. */
  function IsCollapsed(saved: Option<bool>, containsToday: bool): (collapsed: bool)
    ensures saved == Some(true) ==> !collapsed
    ensures saved == Some(false) ==> collapsed
    ensures saved.None? ==> (collapsed <==> !containsToday)
  {
    match saved
    case Some(shown) => !shown
    case None => !containsToday
  }

  /**
   * Clicking a week header records the opposite of the row's current state; afterwards the
   * row renders flipped whatever its default, and every other row keeps its override.
   */
  function ToggledVisibility(wv: WeekVisibility, monthKey: string, row: nat, currentlyCollapsed: bool): (r: WeekVisibility)
    ensures forall today: bool :: IsCollapsed(SavedVisibility(r, monthKey, row), today) == !currentlyCollapsed
    ensures forall mk, rw :: mk != monthKey || rw != row ==> SavedVisibility(r, mk, rw) == SavedVisibility(wv, mk, rw)
    ensures r.Keys == wv.Keys + {monthKey}
  {
    var rows := if monthKey in wv then wv[monthKey] else map[];
    wv[monthKey := rows[row := currentlyCollapsed]]
  }

  /** Two clicks on a rendered row bring back the rendered state. */
  lemma ToggleTwiceRestoresRendering(wv: WeekVisibility, monthKey: string, row: nat, today: bool)
    ensures var c0 := IsCollapsed(SavedVisibility(wv, monthKey, row), today);
      var w1 := ToggledVisibility(wv, monthKey, row, c0);
      var c1 := IsCollapsed(SavedVisibility(w1, monthKey, row), today);
      var w2 := ToggledVisibility(w1, monthKey, row, c1);
      IsCollapsed(SavedVisibility(w2, monthKey, row), today) == c0
  {
  }

  // ---------------------------------------------------------------- drag placeholder

  /** A card element in the hovered day: whether it is being dragged, and the y of its midpoint. */
  datatype CardBox = CardBox(dragged: bool, midY: int)

  /** The midpoints of the cards that are not being dragged, in display order. */
  function Undragged(boxes: seq<CardBox>): (mids: seq<int>)
    ensures |mids| <= |boxes|
  {
    if |boxes| == 0 then []
    else
      var init := Undragged(boxes[..|boxes| - 1]);
      var last := boxes[|boxes| - 1];
      if last.dragged then init else init + [last.midY]
  }

  /** Filtering works box by box: the midpoints of a concatenation are those of its parts, in order. */
  lemma {:induction false} UndraggedAppend(a: seq<CardBox>, b: seq<CardBox>)
    ensures Undragged(a + b) == Undragged(a) + Undragged(b)
    decreases |b|
  {
    if |b| == 0 {
      assert a + b == a;
    } else {
      assert (a + b)[..|a + b| - 1] == a + b[..|b| - 1];
      UndraggedAppend(a, b[..|b| - 1]);
    }
  }

  /** One box: a dragged card contributes nothing, any other card its midpoint. */
  lemma UndraggedSingle(b: CardBox)
    ensures Undragged([b]) == if b.dragged then [] else [b.midY]
  {
    assert [b][..0] == [];
  }

  /**
   * The filter keeps exactly the non-dragged cards: with no card dragged every midpoint is kept
   * in display order, and with every card dragged none is.
   */
  lemma {:induction false} UndraggedExtremes(boxes: seq<CardBox>)
    ensures (forall j :: 0 <= j < |boxes| ==> !boxes[j].dragged) ==>
      |Undragged(boxes)| == |boxes| && forall j :: 0 <= j < |boxes| ==> Undragged(boxes)[j] == boxes[j].midY
    ensures (forall j :: 0 <= j < |boxes| ==> boxes[j].dragged) ==> Undragged(boxes) == []
  {
    if |boxes| > 0 {
      var init := boxes[..|boxes| - 1];
      UndraggedExtremes(init);
      assert forall j :: 0 <= j < |init| ==> init[j] == boxes[j];
    }
  }

  /**
   * Where the placeholder goes among the non-dragged cards: before the first one whose midpoint
   * lies below the pointer, or at the end when there is none.
   */
  method PlaceholderSlot(boxes: seq<CardBox>, pointerY: int) returns (slot: nat)
    ensures slot <= |Undragged(boxes)|
    ensures forall j :: 0 <= j < slot ==> Undragged(boxes)[j] <= pointerY
    ensures slot < |Undragged(boxes)| ==> pointerY < Undragged(boxes)[slot]
  {
    var mids := Undragged(boxes);
    slot := 0;
    while slot < |mids|
      invariant slot <= |mids|
      invariant forall j :: 0 <= j < slot ==> mids[j] <= pointerY
    {
      if pointerY < mids[slot] {
        return;
      }
      slot := slot + 1;
    }
  }
}
