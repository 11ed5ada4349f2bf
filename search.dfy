/**
 * The global search: the query is trimmed and lowercased, the days are visited in sorted key
 * order, and the first card whose lowercased text contains the query is reported.
 */
module Search {
  import opened Wrappers
  import opened Strings
  import opened Cards
  import opened Buckets
  import DateKeys

  /** `value.trim().toLowerCase()`. */
  function Normalized(query: string): string
  {
    Lower(Trim(query))
  }

  /** Normalizing an already normalized query changes nothing. */
  lemma NormalizedIdempotent(query: string)
    ensures Normalized(Normalized(query)) == Normalized(query)
  {
    var t := Trim(query);
    var q := Lower(t);
    if |q| > 0 {
      LowerCharKeepsSpace(t[0]);
      LowerCharKeepsSpace(t[|t| - 1]);
    }
    TrimOfTrimmed(q);
    LowerIdempotent(t);
  }

  /** `(c.text || "").toLowerCase().includes(q)`. */
  predicate Matches(c: Card, q: string)
  {
    Contains(Lower(c.text), q)
  }

  /** Position `i` holds the first card of `s` that matches `q`. */
  predicate IsFirstMatch(s: seq<Card>, q: string, i: int)
  {
    0 <= i < |s| && Matches(s[i], q) && forall j :: 0 <= j < i ==> !Matches(s[j], q)
  }

  /** `list.find(...)`: the first matching card of a day, if any. */
  function FirstMatch(s: seq<Card>, q: string): Option<Card>
    decreases |s|
  {
    if |s| == 0 then None
    else if Matches(s[0], q) then Some(s[0])
    else FirstMatch(s[1..], q)
  }

  /** `find` reports nothing exactly when no card matches, and otherwise the first card that does. */
  lemma {:induction false} FirstMatchFinds(s: seq<Card>, q: string)
    ensures FirstMatch(s, q).None? <==> forall i :: 0 <= i < |s| ==> !Matches(s[i], q)
    ensures FirstMatch(s, q).Some? ==> exists i :: IsFirstMatch(s, q, i) && s[i] == FirstMatch(s, q).value
    decreases |s|
  {
    if |s| > 0 {
      if Matches(s[0], q) {
        assert IsFirstMatch(s, q, 0);
      } else {
        FirstMatchFinds(s[1..], q);
        assert forall i :: 1 <= i < |s| ==> s[i] == s[1..][i - 1];
        if FirstMatch(s[1..], q).Some? {
          var i :| IsFirstMatch(s[1..], q, i) && s[1..][i] == FirstMatch(s[1..], q).value;
          assert IsFirstMatch(s, q, i + 1);
        }
      }
    }
  }

  /** What the search button does: nothing, move to a hit, or report a failure. */
  datatype Outcome = Idle | Hit(dateKey: string, cardId: int) | Miss

  /** `Object.keys(state.cards).sort()` as a sequence: strictly increasing in code-unit order. */
  predicate StrictlySorted(keys: seq<string>)
  {
    forall i, j :: 0 <= i < j < |keys| ==> LexLess(keys[i], keys[j])
  }

  /** Day `k` has a matching card and no day sorting before it has one. */
  ghost predicate EarliestMatch(m: Buckets, q: string, k: string)
  {
    FirstMatch(CardsFor(m, k), q).Some?
    && forall k2 :: LexLess(k2, k) ==> FirstMatch(CardsFor(m, k2), q).None?
  }

  /** At most one day is the earliest to match. */
  lemma EarliestMatchUnique(m: Buckets, q: string, k1: string, k2: string)
    requires EarliestMatch(m, q, k1) && EarliestMatch(m, q, k2)
    ensures k1 == k2
  {
    LexLessTotal(k1, k2);
  }

  /** Among days named by their date keys, the earliest matching key is the earliest matching date. */
  lemma EarliestMatchIsEarliestDate(m: Buckets, q: string, y1: int, m1: int, d1: int, y2: int, m2: int, d2: int)
    requires 1000 <= y1 <= 9999 && 0 <= m1 < 12 && 1 <= d1 <= 31
    requires 1000 <= y2 <= 9999 && 0 <= m2 < 12 && 1 <= d2 <= 31
    requires EarliestMatch(m, q, DateKeys.FormatDateKey(y1, m1, d1))
    requires FirstMatch(CardsFor(m, DateKeys.FormatDateKey(y2, m2, d2)), q).Some?
    ensures y1 < y2 || (y1 == y2 && (m1 < m2 || (m1 == m2 && d1 <= d2)))
  {
    DateKeys.DateKeyOrder(y2, m2, d2, y1, m1, d1);
  }

  /** A key that sorts before `keys[i]` sits at an earlier position. */
  lemma SortedBefore(keys: seq<string>, i: int, k: string)
    requires StrictlySorted(keys) && 0 <= i < |keys|
    requires k in keys && LexLess(k, keys[i])
    ensures exists j :: 0 <= j < i && keys[j] == k
  {
    var j :| 0 <= j < |keys| && keys[j] == k;
    if j == i {
      LexLessIrreflexive(k);
    } else if j > i {
      LexLessAsymmetric(k, keys[i]);
    }
  }

  /** The first position of the sorted keys whose day matches holds the earliest matching day. */
  lemma FirstMatchingKeyIsEarliest(m: Buckets, q: string, keys: seq<string>, i: int)
    requires StrictlySorted(keys)
    requires forall k :: k in m <==> k in keys
    requires 0 <= i < |keys| && FirstMatch(CardsFor(m, keys[i]), q).Some?
    requires forall j :: 0 <= j < i ==> FirstMatch(CardsFor(m, keys[j]), q).None?
    ensures EarliestMatch(m, q, keys[i])
    ensures forall k :: EarliestMatch(m, q, k) ==> k == keys[i]
  {
    forall k2 | LexLess(k2, keys[i])
      ensures FirstMatch(CardsFor(m, k2), q).None?
    {
      if k2 in m {
        SortedBefore(keys, i, k2);
      }
    }
    forall k | EarliestMatch(m, q, k)
      ensures k == keys[i]
    {
      EarliestMatchUnique(m, q, k, keys[i]);
    }
  }

  /** When no listed day matches, no day is the earliest match. */
  lemma NoKeyMatches(m: Buckets, q: string, keys: seq<string>)
    requires forall k :: k in m <==> k in keys
    requires forall j :: 0 <= j < |keys| ==> FirstMatch(CardsFor(m, keys[j]), q).None?
    ensures forall k :: !EarliestMatch(m, q, k)
  {
    forall k | k in m
      ensures FirstMatch(CardsFor(m, k), q).None?
    {
      var j :| 0 <= j < |keys| && keys[j] == k;
    }
    assert forall k :: k !in m ==> CardsFor(m, k) == [];
  }

  /** The loop over the sorted keys: the first position whose day has a matching card, or `|keys|`. */
  method FirstMatchingDay(m: Buckets, q: string, keys: seq<string>) returns (i: int)
    ensures 0 <= i <= |keys|
    ensures forall j :: 0 <= j < i ==> FirstMatch(CardsFor(m, keys[j]), q).None?
    ensures i < |keys| ==> FirstMatch(CardsFor(m, keys[i]), q).Some?
  {
    i := 0;
    while i < |keys|
      invariant 0 <= i <= |keys|
      invariant forall j :: 0 <= j < i ==> FirstMatch(CardsFor(m, keys[j]), q).None?
    {
      if FirstMatch(CardsFor(m, keys[i]), q).Some? {
        return;
      }
      i := i + 1;
    }
  }

  /**
   * `runSearch` in global mode. An empty query does nothing. Otherwise the earliest day with a
   * matching card is found, and it is a hit only when its key is non-empty and the matching
   * card's id is not 0 (both are tested for truthiness); everything else is a miss.
   */
  method GlobalSearch(m: Buckets, query: string, sortedKeys: seq<string>) returns (out: Outcome)
    requires StrictlySorted(sortedKeys)
    requires forall k :: k in m <==> k in sortedKeys
    ensures out == Idle <==> Normalized(query) == ""
    ensures out.Hit? ==>
      && out.dateKey != "" && out.cardId != 0
      && EarliestMatch(m, Normalized(query), out.dateKey)
      && FirstMatch(CardsFor(m, out.dateKey), Normalized(query)).value.id == out.cardId
    ensures out.Miss? ==> forall k :: EarliestMatch(m, Normalized(query), k) ==>
      k == "" || FirstMatch(CardsFor(m, k), Normalized(query)).value.id == 0
  {
    var q := Normalized(query);
    if q == "" {
      return Idle;
    }
    var i := FirstMatchingDay(m, q, sortedKeys);
    if i == |sortedKeys| {
      NoKeyMatches(m, q, sortedKeys);
      return Miss;
    }
    FirstMatchingKeyIsEarliest(m, q, sortedKeys, i);
    var key := sortedKeys[i];
    var found := FirstMatch(CardsFor(m, key), q);
    if key != "" && found.value.id != 0 {
      return Hit(key, found.value.id);
    }
    return Miss;
  }
}
