/** The contact selector of MainWindow.show_notification (gui.py): group the
    contacts by country, weight each country by 6 - priority, draw a country
    with those weights, then draw a contact from the first non-empty contact
    level of that country.

    The random draws are inputs. `random.choices(countries, weights)` is
    modelled by an integer draw r in [0, total weight): the country whose
    cumulative-weight interval holds r is chosen, so each country is chosen
    by exactly as many draws as its weight. `random.choice(xs)` is modelled
    by an index k into xs. */
module Selection {
  import opened Contacts
  import opened Wrappers

  /** Priorities come from a spin box limited to 1..5 (gui.py:490-491). */
  type Priority = p: int | 1 <= p <= 5 witness 3

  const DefaultPriority: Priority := 3

  const PreferredOrder: seq<string> := ["First Contact", "Second Contact", "Third Contact"]

  // ---------------------------------------------------------------------------
  // Grouping by country
  // ---------------------------------------------------------------------------

  /** The distinct countries of cs in order of first occurrence: the key order
      of the `contacts_by_country` dict. */
  function Countries(cs: seq<Contact>): seq<string>
  {
    if cs == [] then []
    else
      var ks := Countries(cs[..|cs| - 1]);
      var k := cs[|cs| - 1].country;
      if k in ks then ks else ks + [k]
  }

  /** The contacts of cs whose country is k, in input order: one group of
      `contacts_by_country`. */
  function OfCountry(cs: seq<Contact>, k: string): seq<Contact>
  {
    if cs == [] then []
    else OfCountry(cs[..|cs| - 1], k) + (if cs[|cs| - 1].country == k then [cs[|cs| - 1]] else [])
  }

  predicate Distinct(ks: seq<string>) {
    forall i, j :: 0 <= i < j < |ks| ==> ks[i] != ks[j]
  }

  /** The group keys are distinct, and a country is a key exactly when its
      group is non-empty. */
  lemma {:induction false} CountriesAreGroupKeys(cs: seq<Contact>)
    ensures Distinct(Countries(cs))
    ensures forall k :: k in Countries(cs) <==> OfCountry(cs, k) != []
  {
    if cs != [] {
      CountriesAreGroupKeys(cs[..|cs| - 1]);
    }
  }

  /** Each contact lands in the group of its own country and in no other. */
  lemma {:induction false} OfCountryMembers(cs: seq<Contact>, k: string)
    ensures forall c :: c in OfCountry(cs, k) <==> c in cs && c.country == k
  {
    if cs != [] {
      OfCountryMembers(cs[..|cs| - 1], k);
      assert cs == cs[..|cs| - 1] + [cs[|cs| - 1]];
    }
  }

  /** A non-empty contact list has at least one group, so the "no contacts
      available" branch after grouping (gui.py:673-675) is never taken. */
  lemma CountriesNonEmpty(cs: seq<Contact>)
    requires cs != []
    ensures Countries(cs) != []
  {
  }

  /** Total size of the groups keyed by ks. */
  function GroupSizes(cs: seq<Contact>, ks: seq<string>): nat
  {
    if ks == [] then 0 else |OfCountry(cs, ks[0])| + GroupSizes(cs, ks[1..])
  }

  lemma {:induction false} GroupSizesAppendKey(cs: seq<Contact>, ks: seq<string>, k: string)
    ensures GroupSizes(cs, ks + [k]) == GroupSizes(cs, ks) + |OfCountry(cs, k)|
  {
    if ks != [] {
      assert (ks + [k])[1..] == ks[1..] + [k];
      GroupSizesAppendKey(cs, ks[1..], k);
    }
  }

  lemma {:induction false} GroupSizesAddContact(cs: seq<Contact>, c: Contact, ks: seq<string>)
    requires Distinct(ks)
    ensures GroupSizes(cs + [c], ks) == GroupSizes(cs, ks) + (if c.country in ks then 1 else 0)
  {
    assert (cs + [c])[..|cs + [c]| - 1] == cs;
    if ks != [] {
      GroupSizesAddContact(cs, c, ks[1..]);
      assert c.country in ks <==> c.country == ks[0] || c.country in ks[1..];
    }
  }

  /** The groups partition the contact list: their sizes add up to its length. */
  lemma {:induction false} GroupsPartition(cs: seq<Contact>)
    ensures GroupSizes(cs, Countries(cs)) == |cs|
  {
    if cs != [] {
      var init, c := cs[..|cs| - 1], cs[|cs| - 1];
      assert cs == init + [c];
      GroupsPartition(init);
      CountriesAreGroupKeys(init);
      var ks := Countries(init);
      GroupSizesAddContact(init, c, ks);
      if c.country !in ks {
        GroupSizesAppendKey(cs, ks, c.country);
        assert OfCountry(init, c.country) == [];
      }
    }
  }

  /** The grouping loop: `contacts_by_country.setdefault(country, []).append(contact)`.
      The dict is its key list in insertion order plus a map from key to group. */
  method GroupByCountry(cs: seq<Contact>) returns (countries: seq<string>, groups: map<string, seq<Contact>>)
    ensures countries == Countries(cs)
    ensures forall k :: k in groups <==> k in countries
    ensures forall k :: k in groups ==> groups[k] == OfCountry(cs, k)
  {
    countries, groups := [], map[];
    for i := 0 to |cs|
      invariant countries == Countries(cs[..i])
      invariant forall k :: k in groups <==> k in countries
      invariant forall k :: k in groups ==> groups[k] == OfCountry(cs[..i], k)
    {
      var contact := cs[i];
      var country := contact.country;
      assert cs[..i + 1][..i] == cs[..i];
      if country !in groups {
        CountriesAreGroupKeys(cs[..i]);
        groups := groups[country := []];
        countries := countries + [country];
      }
      groups := groups[country := groups[country] + [contact]];
    }
    assert cs[..|cs|] == cs;
  }

  // ---------------------------------------------------------------------------
  // Country weights
  // ---------------------------------------------------------------------------

  /** `6 - country_priority_dict.get(country, default_priority)`. */
  function Weight(priorities: map<string, Priority>, k: string): int
  {
    6 - (if k in priorities then priorities[k] else DefaultPriority)
  }

  function Weights(ks: seq<string>, priorities: map<string, Priority>): (ws: seq<int>)
    ensures |ws| == |ks|
  {
    seq(|ks|, i requires 0 <= i < |ks| => Weight(priorities, ks[i]))
  }

  /** Every weight lies in 1..5, a more important (lower) priority weighs
      more, and a country without a stored priority weighs 3. */
  lemma WeightRange(priorities: map<string, Priority>, k: string, k': string)
    ensures 1 <= Weight(priorities, k) <= 5
    ensures k !in priorities ==> Weight(priorities, k) == 3
    ensures k in priorities && k' in priorities && priorities[k] < priorities[k']
      ==> Weight(priorities, k) > Weight(priorities, k')
  {
  }

  /** The weights loop of show_notification. */
  method CountryWeights(countries: seq<string>, priorities: map<string, Priority>) returns (weights: seq<int>)
    ensures weights == Weights(countries, priorities)
    ensures forall i :: 0 <= i < |weights| ==> 1 <= weights[i] <= 5
  {
    weights := [];
    for i := 0 to |countries|
      invariant weights == Weights(countries[..i], priorities)
    {
      var cp := if countries[i] in priorities then priorities[countries[i]] else DefaultPriority;
      weights := weights + [6 - cp];
    }
    assert countries[..|countries|] == countries;
  }

  // ---------------------------------------------------------------------------
  // Weighted draw
  // ---------------------------------------------------------------------------

  function Sum(ws: seq<int>): int
  {
    if ws == [] then 0 else ws[0] + Sum(ws[1..])
  }

  predicate Positive(ws: seq<int>) {
    forall i :: 0 <= i < |ws| ==> ws[i] > 0
  }

  /** `random.choices(population, weights)` with its uniform draw scaled to an
      integer r in [0, total): the index whose cumulative-weight interval
      [Sum(ws[..i]), Sum(ws[..i]) + ws[i]) holds r. */
  function PickIndex(ws: seq<int>, r: int): (i: nat)
    requires Positive(ws)
    requires 0 <= r < Sum(ws)
    ensures i < |ws|
    ensures Sum(ws[..i]) <= r < Sum(ws[..i]) + ws[i]
  {
    if r < ws[0] then
      assert ws[..0] == [];
      0
    else
      var j := PickIndex(ws[1..], r - ws[0]);
      assert ws[..j + 1][1..] == ws[1..][..j];
      j + 1
  }

  lemma {:induction false} SumAppend(a: seq<int>, b: seq<int>)
    ensures Sum(a + b) == Sum(a) + Sum(b)
  {
    if a == [] {
      assert a + b == b;
    } else {
      assert (a + b)[1..] == a[1..] + b;
      SumAppend(a[1..], b);
    }
  }

  lemma SumPrefixStep(ws: seq<int>, i: nat)
    requires i < |ws|
    ensures Sum(ws[..i + 1]) == Sum(ws[..i]) + ws[i]
  {
    assert ws[..i + 1] == ws[..i] + [ws[i]];
    SumAppend(ws[..i], [ws[i]]);
  }

  /** With positive weights the cumulative sums strictly increase. */
  lemma {:induction false} SumPrefixMonotone(ws: seq<int>, i: nat, j: nat)
    requires Positive(ws) && i < j <= |ws|
    ensures Sum(ws[..i]) < Sum(ws[..j])
    decreases j - i
  {
    SumPrefixStep(ws, j - 1);
    if i < j - 1 {
      SumPrefixMonotone(ws, i, j - 1);
    }
  }

  /** The draw r picks index i exactly when r lies in i's interval, whose
      length is ws[i]: of the Sum(ws) equally likely draws, exactly ws[i]
      pick index i. */
  lemma PickIndexExactly(ws: seq<int>, r: int, i: nat)
    requires Positive(ws) && 0 <= r < Sum(ws) && i < |ws|
    ensures PickIndex(ws, r) == i <==> Sum(ws[..i]) <= r < Sum(ws[..i]) + ws[i]
  {
    var p := PickIndex(ws, r);
    SumPrefixStep(ws, p);
    SumPrefixStep(ws, i);
    if p < i {
      SumPrefixMonotone(ws, p + 1, i + 1);
      if p + 1 < i { SumPrefixMonotone(ws, p + 1, i); }
    } else if i < p {
      if i + 1 < p { SumPrefixMonotone(ws, i + 1, p); }
    }
  }

  lemma {:induction false} SumPositive(ws: seq<int>)
    requires Positive(ws) && ws != []
    ensures Sum(ws) >= |ws|
  {
    if |ws| > 1 {
      SumPositive(ws[1..]);
    }
  }

  // ---------------------------------------------------------------------------
  // Contact level within the chosen country
  // ---------------------------------------------------------------------------

  /** `[c for c in candidates if c[5] == level]`. */
  function WithLevel(cs: seq<Contact>, level: string): seq<Contact>
  {
    if cs == [] then []
    else WithLevel(cs[..|cs| - 1], level) + (if cs[|cs| - 1].level == level then [cs[|cs| - 1]] else [])
  }

  lemma {:induction false} WithLevelMembers(cs: seq<Contact>, level: string)
    ensures forall c :: c in WithLevel(cs, level) <==> c in cs && c.level == level
  {
    if cs != [] {
      WithLevelMembers(cs[..|cs| - 1], level);
      assert cs == cs[..|cs| - 1] + [cs[|cs| - 1]];
    }
  }

  /** Index into PreferredOrder of the first level present among cs, or 3
      when none of the three is present. */
  function FirstPresentLevel(cs: seq<Contact>, from: nat): (j: nat)
    requires from <= 3
    ensures from <= j <= 3
    decreases 3 - from
  {
    if from == 3 then 3
    else if WithLevel(cs, PreferredOrder[from]) != [] then from
    else FirstPresentLevel(cs, from + 1)
  }

  /** The list the contact is drawn from: the first non-empty preferred level,
      or all candidates when no preferred level is present. */
  function LevelPool(cs: seq<Contact>): seq<Contact>
  {
    var j := FirstPresentLevel(cs, 0);
    if j < 3 then WithLevel(cs, PreferredOrder[j]) else cs
  }

  /** The pool holds candidates only. When some preferred level is present,
      the pool is exactly the candidates of the first such level and no
      candidate has an earlier preferred level; when none is present, the
      pool is every candidate. */
  lemma {:induction false} LevelPoolMeaning(cs: seq<Contact>)
    ensures cs != [] ==> LevelPool(cs) != []
    ensures forall c :: c in LevelPool(cs) ==> c in cs
    ensures FirstPresentLevel(cs, 0) < 3 ==>
      && (forall c :: c in LevelPool(cs) <==> c in cs && c.level == PreferredOrder[FirstPresentLevel(cs, 0)])
      && (forall c, j :: c in cs && 0 <= j < FirstPresentLevel(cs, 0) ==> c.level != PreferredOrder[j])
    ensures FirstPresentLevel(cs, 0) == 3 <==> forall c :: c in cs ==> c.level !in PreferredOrder
  {
    var j := FirstPresentLevel(cs, 0);
    forall l | 0 <= l < 3 {
      WithLevelMembers(cs, PreferredOrder[l]);
    }
    assert forall l :: 0 <= l < j ==> WithLevel(cs, PreferredOrder[l]) == [] by {
      FirstPresentLevelSkips(cs, 0);
    }
    if j < 3 {
      var c0 := WithLevel(cs, PreferredOrder[j])[0];
      assert c0 in cs && c0.level in PreferredOrder;
    }
  }

  lemma {:induction false} FirstPresentLevelSkips(cs: seq<Contact>, from: nat)
    requires from <= 3
    ensures forall l :: from <= l < FirstPresentLevel(cs, from) ==> WithLevel(cs, PreferredOrder[l]) == []
    ensures FirstPresentLevel(cs, from) < 3 ==> WithLevel(cs, PreferredOrder[FirstPresentLevel(cs, from)]) != []
    decreases 3 - from
  {
    if from < 3 && WithLevel(cs, PreferredOrder[from]) == [] {
      FirstPresentLevelSkips(cs, from + 1);
    }
  }

  /** The level scan of show_notification: try "First Contact", "Second
      Contact", "Third Contact" in turn and draw from the first non-empty one;
      fall back to a draw over all candidates. */
  method PickContact(candidates: seq<Contact>, k: nat) returns (selected: Contact)
    requires k < |LevelPool(candidates)|
    ensures selected == LevelPool(candidates)[k]
  {
    var chosen: Option<Contact> := None;
    var j := 0;
    while j < |PreferredOrder|
      invariant 0 <= j <= 3
      invariant chosen.None?
      invariant FirstPresentLevel(candidates, 0) == FirstPresentLevel(candidates, j)
    {
      var levelCandidates := WithLevel(candidates, PreferredOrder[j]);
      if levelCandidates != [] {
        assert LevelPool(candidates) == levelCandidates;
        chosen := Some(levelCandidates[k]);
        break;
      }
      j := j + 1;
    }
    if chosen.None? {
      selected := candidates[k];
    } else {
      selected := chosen.value;
    }
  }

  // ---------------------------------------------------------------------------
  // The two stages together
  // ---------------------------------------------------------------------------

  /** The country drawn by r. */
  function ChosenCountry(cs: seq<Contact>, priorities: map<string, Priority>, r: int): (k: string)
    requires 0 <= r < Sum(Weights(Countries(cs), priorities))
    ensures k in Countries(cs)
  {
    var ws := Weights(Countries(cs), priorities);
    assert Positive(ws) by { forall i | 0 <= i < |ws| { WeightRange(priorities, Countries(cs)[i], Countries(cs)[i]); } }
    Countries(cs)[PickIndex(ws, r)]
  }

  /** Draws a country draw r and a contact draw k may take. */
  predicate ValidDraws(cs: seq<Contact>, priorities: map<string, Priority>, r: int, k: int) {
    && 0 <= r < Sum(Weights(Countries(cs), priorities))
    && 0 <= k < |LevelPool(OfCountry(cs, ChosenCountry(cs, priorities, r)))|
  }

  /** The contact show_notification selects for draws r and k. */
  function Choose(cs: seq<Contact>, priorities: map<string, Priority>, r: int, k: int): Contact
    requires ValidDraws(cs, priorities, r, k)
  {
    LevelPool(OfCountry(cs, ChosenCountry(cs, priorities, r)))[k]
  }

  /** For a non-empty contact list the country draw has a non-empty range,
      and every country drawn has a non-empty pool to draw the contact from. */
  lemma DrawsExist(cs: seq<Contact>, priorities: map<string, Priority>, r: int)
    requires cs != []
    ensures Sum(Weights(Countries(cs), priorities)) >= |Countries(cs)| > 0
    ensures 0 <= r < Sum(Weights(Countries(cs), priorities)) ==> ValidDraws(cs, priorities, r, 0)
  {
    var ws := Weights(Countries(cs), priorities);
    forall i | 0 <= i < |ws| { WeightRange(priorities, Countries(cs)[i], Countries(cs)[i]); }
    SumPositive(ws);
    if 0 <= r < Sum(ws) {
      var k := ChosenCountry(cs, priorities, r);
      CountriesAreGroupKeys(cs);
      LevelPoolMeaning(OfCountry(cs, k));
    }
  }

  /** The chosen contact is a contact of the chosen country; its level is the
      first preferred level present in that country, and it can be any
      contact of the country only when none of the preferred levels is. */
  lemma ChooseMeaning(cs: seq<Contact>, priorities: map<string, Priority>, r: int, k: int)
    requires ValidDraws(cs, priorities, r, k)
    ensures var c := Choose(cs, priorities, r, k);
      var group := OfCountry(cs, ChosenCountry(cs, priorities, r));
      && c in cs
      && c.country == ChosenCountry(cs, priorities, r)
      && (FirstPresentLevel(group, 0) < 3 ==> c.level == PreferredOrder[FirstPresentLevel(group, 0)])
      && (FirstPresentLevel(group, 0) == 3 ==> c.level !in PreferredOrder)
  {
    var group := OfCountry(cs, ChosenCountry(cs, priorities, r));
    LevelPoolMeaning(group);
    OfCountryMembers(cs, ChosenCountry(cs, priorities, r));
    assert Choose(cs, priorities, r, k) in LevelPool(group);
  }

  /** Country i of the group keys is drawn by exactly Weight(country i) of the
      possible draws: those in its cumulative-weight interval. */
  lemma ChosenCountryExactly(cs: seq<Contact>, priorities: map<string, Priority>, r: int, i: nat)
    requires 0 <= r < Sum(Weights(Countries(cs), priorities))
    requires i < |Countries(cs)|
    ensures var ws := Weights(Countries(cs), priorities);
      ChosenCountry(cs, priorities, r) == Countries(cs)[i] <==> Sum(ws[..i]) <= r < Sum(ws[..i]) + ws[i]
  {
    var ws := Weights(Countries(cs), priorities);
    assert Positive(ws) by { forall j | 0 <= j < |ws| { WeightRange(priorities, Countries(cs)[j], Countries(cs)[j]); } }
    CountriesAreGroupKeys(cs);
    PickIndexExactly(ws, r, i);
  }
}
