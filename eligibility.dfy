/**
 * Slot and eligibility resolution of the roster optimizer
 * (ffbot/optimizer.py, the "Game rules" block and the IR test).
 */
module Eligibility {
  import opened Wrappers
  import opened Text

  // ---------------------------------------------------------------------------
  // The league's slot configuration
  // ---------------------------------------------------------------------------

  /** Number of occurrences of `c` in `s`. */
  function Occurrences(s: string, c: char): nat
  {
    if s == [] then 0 else Occurrences(s[..|s| - 1], c) + (if s[|s| - 1] == c then 1 else 0)
  }

  /** The slot labels of a comma-separated configuration such as "QB, WR, WR, BN". */
  function SlotLabels(config: string): (labels: seq<string>)
    ensures |labels| == |Split(config, ',')|
  {
    var pieces := Split(config, ',');
    seq(|pieces|, k requires 0 <= k < |pieces| => Strip(pieces[k]))
  }

  /** Every label is a whitespace-trimmed piece without a comma, and there is one
      label more than the configuration has commas. */
  lemma SlotLabelsShape(config: string)
    ensures |SlotLabels(config)| == Occurrences(config, ',') + 1
    ensures forall k :: 0 <= k < |SlotLabels(config)| ==>
      ',' !in SlotLabels(config)[k] && Strip(SlotLabels(config)[k]) == SlotLabels(config)[k]
  {
    SplitCount(config, ',');
    var pieces := Split(config, ',');
    forall k | 0 <= k < |pieces|
      ensures ',' !in Strip(pieces[k]) && Strip(Strip(pieces[k])) == Strip(pieces[k])
    {
      StripIdempotent(pieces[k]);
      if ',' in Strip(pieces[k]) {
        StripRemovesNoOther(pieces[k], ',');
      }
    }
  }

  lemma {:induction false} SplitCount(s: string, sep: char)
    ensures |Split(s, sep)| == Occurrences(s, sep) + 1
    decreases |s|
  {
    var i := IndexOf(s, sep);
    if i == |s| {
      SplitWithoutSep(s, sep);
      NoOccurrences(s, sep);
    } else {
      SplitCount(s[i + 1..], sep);
      assert s == s[..i] + [sep] + s[i + 1..];
      OccurrencesConcat(s[..i] + [sep], s[i + 1..], sep);
      OccurrencesConcat(s[..i], [sep], sep);
      NoOccurrences(s[..i], sep);
      assert Occurrences([sep], sep) == 1 by {
        assert [sep][..0] == [];
      }
    }
  }

  lemma {:induction false} NoOccurrences(s: string, c: char)
    requires c !in s
    ensures Occurrences(s, c) == 0
  {
    if s != [] {
      assert s[..|s| - 1] <= s;
      NoOccurrences(s[..|s| - 1], c);
    }
  }

  lemma {:induction false} OccurrencesConcat(a: string, b: string, c: char)
    ensures Occurrences(a + b, c) == Occurrences(a, c) + Occurrences(b, c)
    decreases |b|
  {
    if b == [] {
      assert a + b == a;
    } else {
      assert (a + b)[..|a + b| - 1] == a + b[..|b| - 1];
      OccurrencesConcat(a, b[..|b| - 1], c);
    }
  }

  /** The set of distinct labels. */
  function LabelSet(labels: seq<string>): set<string>
  {
    set k | 0 <= k < |labels| :: labels[k]
  }

  /** One more label of a prefix adds that label. */
  lemma LabelSetPrefix(labels: seq<string>, i: nat)
    requires i < |labels|
    ensures LabelSet(labels[..i + 1]) == LabelSet(labels[..i]) + {labels[i]}
  {
    assert labels[..i + 1] == labels[..i] + [labels[i]];
    LabelSetSnoc(labels[..i], labels[i]);
  }

  lemma LabelSetSnoc(labels: seq<string>, x: string)
    ensures LabelSet(labels + [x]) == LabelSet(labels) + {x}
  {
    var s := labels + [x];
    forall y | y in LabelSet(s) ensures y in LabelSet(labels) + {x} {
      var k :| 0 <= k < |s| && s[k] == y;
      if k < |labels| { assert labels[k] == y; }
    }
    forall y | y in LabelSet(labels) ensures y in LabelSet(s) {
      var k :| 0 <= k < |labels| && labels[k] == y;
      assert s[k] == y;
    }
    assert s[|labels|] == x;
  }

  /** `Counter(positions)`: each label's capacity is its number of occurrences. */
  function Capacity(labels: seq<string>): (cap: map<string, nat>)
    ensures cap.Keys == LabelSet(labels)
    ensures forall n :: n in cap ==> cap[n] == multiset(labels)[n]
  {
    if labels == [] then map[]
    else
      var init := labels[..|labels| - 1];
      var last := labels[|labels| - 1];
      var cap := Capacity(init);
      assert labels == init + [last];
      cap[last := if last in cap then cap[last] + 1 else 1]
  }

  /** `PositionMax.keys()`: the distinct labels in order of first occurrence. */
  function Distinct(labels: seq<string>): (keys: seq<string>)
    ensures LabelSet(keys) == LabelSet(labels)
    ensures forall i, j :: 0 <= i < j < |keys| ==> keys[i] != keys[j]
  {
    if labels == [] then []
    else
      var init := labels[..|labels| - 1];
      var last := labels[|labels| - 1];
      var keys := Distinct(init);
      assert labels == init + [last];
      LabelSetSnoc(init, last);
      if last in keys then keys
      else
        LabelSetSnoc(keys, last);
        keys + [last]
  }

  /** The sum of the capacities named in `keys`. */
  function CapacitySum(cap: map<string, nat>, keys: seq<string>): nat
  {
    if keys == [] then 0
    else
      var last := keys[|keys| - 1];
      CapacitySum(cap, keys[..|keys| - 1]) + (if last in cap then cap[last] else 0)
  }

  /** The capacities add up to the number of slots in the configuration. */
  lemma {:induction false} CapacitiesSumToSlotCount(labels: seq<string>)
    ensures CapacitySum(Capacity(labels), Distinct(labels)) == |labels|
  {
    if labels != [] {
      var init := labels[..|labels| - 1];
      var last := labels[|labels| - 1];
      CapacitiesSumToSlotCount(init);
      var keys := Distinct(init);
      var cap := Capacity(init);
      CapacityStep(labels);
      DistinctStep(labels);
      KeysListed(init, last);
      SumStep(cap, Capacity(labels), keys, last, |init|);
    }
  }

  /** A label has a capacity exactly when it is among the distinct labels. */
  lemma KeysListed(labels: seq<string>, x: string)
    ensures x in Capacity(labels) <==> x in Distinct(labels)
  {
    var keys := Distinct(labels);
    if x in keys {
      var k :| 0 <= k < |keys| && keys[k] == x;
      assert x in LabelSet(keys);
    }
    if x in LabelSet(labels) {
      assert x in LabelSet(keys);
      var k :| 0 <= k < |keys| && keys[k] == x;
    }
  }

  /** One more label adds one to the sum over the distinct labels. */
  lemma SumStep(cap: map<string, nat>, cap': map<string, nat>, keys: seq<string>, x: string, n: nat)
    requires forall i, j :: 0 <= i < j < |keys| ==> keys[i] != keys[j]
    requires cap'.Keys == cap.Keys + {x}
    requires forall y :: y in cap && y != x ==> cap'[y] == cap[y]
    requires cap'[x] == (if x in cap then cap[x] else 0) + 1
    requires x in cap <==> x in keys
    requires CapacitySum(cap, keys) == n
    ensures CapacitySum(cap', if x in keys then keys else keys + [x]) == n + 1
  {
    CapacitySumBump(cap, cap', keys, x);
    if x !in keys {
      assert (keys + [x])[..|keys|] == keys;
    }
  }

  /** One more label raises its own capacity by one. */
  lemma CapacityStep(labels: seq<string>)
    requires labels != []
    ensures var init, last := labels[..|labels| - 1], labels[|labels| - 1];
      Capacity(labels) == Capacity(init)[last := if last in Capacity(init) then Capacity(init)[last] + 1 else 1]
  {
  }

  /** One more label is listed unless it already was. */
  lemma DistinctStep(labels: seq<string>)
    requires labels != []
    ensures var init, last := labels[..|labels| - 1], labels[|labels| - 1];
      Distinct(labels) == if last in Distinct(init) then Distinct(init) else Distinct(init) + [last]
  {
  }

  /** Incrementing one key's capacity raises the sum by one when that key is counted once. */
  lemma {:induction false} CapacitySumBump(cap: map<string, nat>, cap': map<string, nat>, keys: seq<string>, x: string)
    requires forall i, j :: 0 <= i < j < |keys| ==> keys[i] != keys[j]
    requires cap'.Keys == cap.Keys + {x}
    requires forall n :: n in cap && n != x ==> cap'[n] == cap[n]
    requires cap'[x] == (if x in cap then cap[x] else 0) + 1
    ensures CapacitySum(cap', keys) == CapacitySum(cap, keys) + (if x in keys then 1 else 0)
  {
    if keys != [] {
      var init := keys[..|keys| - 1];
      CapacitySumBump(cap, cap', init, x);
      assert x in keys <==> x in init || x == keys[|keys| - 1] by {
        assert keys == init + [keys[|keys| - 1]];
      }
    }
  }

  // ---------------------------------------------------------------------------
  // Which slots each natural position may fill
  // ---------------------------------------------------------------------------

  /** The fixed rule table of canonical positions (offence, kicker, defence, IDP). */
  const CanonicalKeys: seq<string> := ["QB", "WR", "RB", "TE", "K", "DEF", "CB", "DE", "DT", "LB", "S"]

  const Canonical: map<string, set<string>> := map[
    "QB" := {"QB", "Q/W/R/T"},
    "WR" := {"WR", "W/R/T", "W/T", "W/R", "Q/W/R/T"},
    "RB" := {"RB", "W/R/T", "W/R", "Q/W/R/T"},
    "TE" := {"TE", "W/R/T", "W/T", "Q/W/R/T"},
    "K" := {"K"},
    "DEF" := {"DEF", "D/ST"},
    "CB" := {"CB", "D", "DB"},
    "DE" := {"D", "DE", "DL"},
    "DT" := {"D", "DL", "DT"},
    "LB" := {"D", "LB"},
    "S" := {"D", "DB", "S"}
  ]

  /** The canonical rules restricted to the league's labels, with empty rules removed. This
      is the reference definition of lines 50-56; `FilterToLeague` is proved to build it. */
  function Filtered(labels: seq<string>): (f: map<string, set<string>>)
    ensures f.Keys <= Canonical.Keys
    ensures forall key :: key in Canonical && Canonical[key] * LabelSet(labels) != {} ==> key in f
    ensures forall key :: key in f ==> f[key] != {} && f[key] == Canonical[key] * LabelSet(labels)
  {
    map key | key in Canonical && Canonical[key] * LabelSet(labels) != {} :: Canonical[key] * LabelSet(labels)
  }

  /** The union of the filtered rules of the stripped pieces in `parts`. */
  function UnionOf(f: map<string, set<string>>, parts: seq<string>): set<string>
  {
    if parts == [] then {}
    else
      var n := Strip(parts[|parts| - 1]);
      UnionOf(f, parts[..|parts| - 1]) + (if n in f then f[n] else {})
  }

  lemma UnionOfSnoc(f: map<string, set<string>>, parts: seq<string>, x: string)
    ensures UnionOf(f, parts + [x]) == UnionOf(f, parts) + (if Strip(x) in f then f[Strip(x)] else {})
  {
    assert (parts + [x])[..|parts|] == parts;
  }

  /** The slots a natural position string may fill: the union over its comma-separated
      components, each stripped, of that component's filtered rule. */
  function ComponentSlots(f: map<string, set<string>>, position: string): set<string>
  {
    UnionOf(f, Split(position, ','))
  }

  /** A component that is already stripped and has no comma is its own only component. */
  lemma AtomicComponent(f: map<string, set<string>>, n: string)
    requires ',' !in n && Strip(n) == n
    ensures ComponentSlots(f, n) == if n in f then f[n] else {}
  {
    SplitWithoutSep(n, ',');
    assert Split(n, ',') == [n];
    UnionOfSingle(f, n);
  }

  lemma UnionOfSingle(f: map<string, set<string>>, n: string)
    ensures UnionOf(f, [n]) == if Strip(n) in f then f[Strip(n)] else {}
  {
    assert [n][..0] == [];
    assert UnionOf(f, []) == {};
  }

  lemma CanonicalKeysAtomic()
    ensures forall key :: key in Canonical ==> ',' !in key && Strip(key) == key
  {
    forall key | key in Canonical ensures ',' !in key && Strip(key) == key {
      assert key in CanonicalKeys;
      StripUnspaced(key);
    }
  }

  /** Lines 50-56: restricts each canonical rule, in place, to the league's labels and
      then drops the rules left empty. */
  method FilterToLeague(labels: seq<string>) returns (table: map<string, set<string>>)
    ensures table == Filtered(labels)
  {
    ghost var league := LabelSet(labels);
    table := Canonical;
    var i := 0;
    ghost var done: set<string> := {};
    while i < |CanonicalKeys|
      invariant 0 <= i <= |CanonicalKeys|
      invariant done == LabelSet(CanonicalKeys[..i])
      invariant table.Keys == Canonical.Keys
      invariant forall key :: key in table ==>
        table[key] == if key in done then Canonical[key] * league else Canonical[key]
    {
      var key := CanonicalKeys[i];
      LabelSetPrefix(CanonicalKeys, i);
      Restrict(table[key], labels);
      table := table[key := set n | n in table[key] && n in labels];
      done := done + {key};
      i := i + 1;
    }
    assert CanonicalKeys[..i] == CanonicalKeys;
    CanonicalKeysListed();
    table := DropEmpty(table, labels);
  }

  /** Keeping the members of a rule that occur among the labels is intersecting with the
      league's label set. */
  lemma Restrict(rule: set<string>, labels: seq<string>)
    ensures (set n | n in rule && n in labels) == rule * LabelSet(labels)
  {
    forall n | n in rule * LabelSet(labels) ensures n in labels {
      var k :| 0 <= k < |labels| && labels[k] == n;
    }
  }

  lemma CanonicalKeysListed()
    ensures LabelSet(CanonicalKeys) == Canonical.Keys
  {
    assert forall key :: key in Canonical ==> key in CanonicalKeys;
  }

  /** Line 56: removes the restricted rules that are left empty. */
  function DropEmpty(table: map<string, set<string>>, labels: seq<string>): (f: map<string, set<string>>)
    requires table.Keys == Canonical.Keys
    requires forall key :: key in table ==> table[key] == Canonical[key] * LabelSet(labels)
    ensures f == Filtered(labels)
  {
    map key | key in table && table[key] != {} :: table[key]
  }

  /** Every entry of `table` holds the slots its key may fill. */
  predicate Resolved(f: map<string, set<string>>, table: map<string, set<string>>)
  {
    forall key :: key in table ==> table[key] == ComponentSlots(f, key)
  }

  /** Lines 58-65: every position string of the player pool that is not yet a key gets
      the union of its stripped components' rules. */
  method AddComposites(f: map<string, set<string>>, positions: seq<string>) returns (table: map<string, set<string>>)
    requires forall key :: key in f ==> ',' !in key && Strip(key) == key
    ensures table.Keys == f.Keys + LabelSet(positions)
    ensures Resolved(f, table)
  {
    table := f;
    AtomicResolved(f);
    var j := 0;
    ghost var seen: set<string> := {};
    while j < |positions|
      invariant 0 <= j <= |positions|
      invariant seen == LabelSet(positions[..j])
      invariant f.Keys <= table.Keys && table.Keys == f.Keys + seen
      invariant Resolved(f, table)
    {
      var position := positions[j];
      assert positions[..j + 1] == positions[..j] + [position];
      LabelSetSnoc(positions[..j], position);
      table := AddMissing(f, table, position);
      seen := seen + {position};
      j := j + 1;
    }
    assert positions[..j] == positions;
  }

  lemma AtomicResolved(f: map<string, set<string>>)
    requires forall key :: key in f ==> ',' !in key && Strip(key) == key
    ensures Resolved(f, f)
  {
    forall key | key in f ensures f[key] == ComponentSlots(f, key) {
      AtomicComponent(f, key);
    }
  }

  /** One iteration of lines 58-65: a position that is already a key is left alone. */
  method AddMissing(f: map<string, set<string>>, table: map<string, set<string>>, position: string)
    returns (table': map<string, set<string>>)
    requires f.Keys <= table.Keys && Resolved(f, table)
    ensures table'.Keys == table.Keys + {position}
    ensures Resolved(f, table')
  {
    table' := table;
    if position !in table {
      ResolvedPieces(f, table, position);
      table' := AddPosition(f, table, position);
      forall key | key in table' ensures table'[key] == ComponentSlots(f, key) {
        if key != position {
          assert key in table;
        }
      }
    }
  }

  /** The entry of every stripped component of `parts` that is already a key is that
      component's filtered rule. */
  predicate PiecesResolved(f: map<string, set<string>>, table: map<string, set<string>>, parts: seq<string>)
  {
    forall k :: 0 <= k < |parts| && Strip(parts[k]) in table ==>
      table[Strip(parts[k])] == if Strip(parts[k]) in f then f[Strip(parts[k])] else {}
  }

  /** Lines 59-65 for one position that is not yet a key. The entry being built is kept in
      `slots` and stored at the end; a component equal to the position itself reads that
      partial entry, as the in-place update does. */
  method AddPosition(f: map<string, set<string>>, before: map<string, set<string>>, position: string)
    returns (table: map<string, set<string>>)
    requires f.Keys <= before.Keys && position !in before
    requires PiecesResolved(f, before, Split(position, ','))
    ensures table == before[position := ComponentSlots(f, position)]
  {
    var slots: set<string> := {};
    var parts := Split(position, ',');
    var m := 0;
    assert parts[..0] == [];
    while m < |parts|
      invariant 0 <= m <= |parts|
      invariant slots == UnionOf(f, parts[..m])
    {
      var n := Strip(parts[m]);
      PieceStep(f, before, position, parts, m);
      if n == position {
        slots := slots + slots;
      } else if n in before {
        slots := slots + before[n];
      }
      m := m + 1;
    }
    assert parts[..m] == parts;
    table := before[position := slots];
  }

  /** One component of lines 62-65: the union so far grows by what the loop body adds. */
  lemma PieceStep(f: map<string, set<string>>, before: map<string, set<string>>, position: string,
                  parts: seq<string>, m: nat)
    requires f.Keys <= before.Keys && position !in before
    requires parts == Split(position, ',') && m < |parts|
    requires PiecesResolved(f, before, parts)
    ensures var n, u := Strip(parts[m]), UnionOf(f, parts[..m]);
      UnionOf(f, parts[..m + 1]) ==
        if n == position then u + u else if n in before then u + before[n] else u
  {
    var n := Strip(parts[m]);
    assert parts[..m + 1] == parts[..m] + [parts[m]];
    UnionOfSnoc(f, parts[..m], parts[m]);
    if n == position {
      SelfComponent(position, parts, m);
      assert parts[..m] == [];
    } else if n in before {
      assert before[n] == if n in f then f[n] else {};
    }
  }

  /** A component whose stripped text is the whole position string is its only component. */
  lemma SelfComponent(position: string, parts: seq<string>, m: nat)
    requires parts == Split(position, ',') && m < |parts| && Strip(parts[m]) == position
    ensures m == 0 && |parts| == 1
  {
    if ',' in position {
      StripRemovesNoOther(parts[m], ',');
    }
    SplitWithoutSep(position, ',');
  }

  /** In a table whose entries are all resolved, the components of a new position are too. */
  lemma ResolvedPieces(f: map<string, set<string>>, table: map<string, set<string>>, position: string)
    requires Resolved(f, table)
    ensures PiecesResolved(f, table, Split(position, ','))
  {
    var parts := Split(position, ',');
    forall k | 0 <= k < |parts| && Strip(parts[k]) in table
      ensures table[Strip(parts[k])] == if Strip(parts[k]) in f then f[Strip(parts[k])] else {}
    {
      var n := Strip(parts[k]);
      StripIdempotent(parts[k]);
      if ',' in n {
        StripRemovesNoOther(parts[k], ',');
      }
      AtomicComponent(f, n);
    }
  }

  /** Builds the whole eligibility table from the league's labels and the position
      strings of the player pool. */
  method ResolveEligibility(labels: seq<string>, positions: seq<string>) returns (table: map<string, set<string>>)
    ensures table.Keys == Filtered(labels).Keys + LabelSet(positions)
    ensures Resolved(Filtered(labels), table)
  {
    var f := FilterToLeague(labels);
    CanonicalKeysAtomic();
    table := AddComposites(f, positions);
  }

  /** Every slot a position may fill is one of the league's labels. */
  lemma {:induction false} ComponentSlotsInLeague(labels: seq<string>, parts: seq<string>)
    ensures UnionOf(Filtered(labels), parts) <= LabelSet(labels)
  {
    if parts != [] {
      ComponentSlotsInLeague(labels, parts[..|parts| - 1]);
    }
  }

  /** A composite position "a,b" may fill exactly the slots of "a" together with those of "b". */
  lemma CompositeIsUnion(f: map<string, set<string>>, a: string, b: string)
    ensures ComponentSlots(f, a + [','] + b) == ComponentSlots(f, a) + ComponentSlots(f, b)
  {
    SplitConcat(a, b, ',');
    UnionOfConcat(f, Split(a, ','), Split(b, ','));
  }

  lemma {:induction false} SplitConcat(a: string, b: string, sep: char)
    ensures Split(a + [sep] + b, sep) == Split(a, sep) + Split(b, sep)
    decreases |a|
  {
    var s := a + [sep] + b;
    var i := IndexOf(a, sep);
    if i == |a| {
      assert s[..i] == a && s[i + 1..] == b;
      SplitAt(s, sep, i);
      SplitWithoutSep(a, sep);
    } else {
      var rest := a[i + 1..];
      assert s[..i] == a[..i] && s[i + 1..] == rest + [sep] + b;
      SplitAt(s, sep, i);
      SplitAt(a, sep, i);
      SplitConcat(rest, b, sep);
      var p, q := Split(rest, sep), Split(b, sep);
      ConcatAssoc([a[..i]], p, q);
    }
  }

  lemma {:induction false} UnionOfConcat(f: map<string, set<string>>, p: seq<string>, q: seq<string>)
    ensures UnionOf(f, p + q) == UnionOf(f, p) + UnionOf(f, q)
    decreases |q|
  {
    if q == [] {
      assert p + q == p;
    } else {
      assert (p + q)[..|p + q| - 1] == p + q[..|q| - 1];
      UnionOfConcat(f, p, q[..|q| - 1]);
    }
  }

  // ---------------------------------------------------------------------------
  // Bench and injury reserve
  // ---------------------------------------------------------------------------

  /** Statuses whose part before the first hyphen lets a player sit on IR. */
  const ReserveStatuses: set<string> := {"COVID", "IR", "NFI", "O", "PUP"}

  /** `not pd.isna(status) and status.split("-")[0] in IR_STATUSES`. */
  predicate ReserveEligible(status: Option<string>)
  {
    status.Some? && Split(status.value, '-')[0] in ReserveStatuses
  }

  /** A status qualifies exactly when it is a reserve designation, alone or followed by
      a hyphen and any suffix. */
  lemma ReserveEligibleIff(s: string)
    ensures ReserveEligible(Some(s)) <==>
      exists d :: d in ReserveStatuses && (s == d || (|s| > |d| && s[..|d|] == d && s[|d|] == '-'))
  {
    var i := IndexOf(s, '-');
    var head := Split(s, '-')[0];
    assert head == s[..i];
    assert forall d :: d in ReserveStatuses ==> '-' !in d;
    if ReserveEligible(Some(s)) {
      if i == |s| {
        assert s[..i] == s;
      } else {
        assert |s| > |head| && s[..|head|] == head && s[|head|] == '-';
      }
    }
    if d :| d in ReserveStatuses && (s == d || (|s| > |d| && s[..|d|] == d && s[|d|] == '-')) {
      if s == d {
        assert '-' !in s;
        SplitWithoutSep(s, '-');
      } else {
        assert '-' !in s[..|d|];
        IndexOfFirst(s, '-', |d|);
      }
    }
  }

  lemma ReserveExampleHyphen()
    ensures ReserveEligible(Some("IR-R")) && ReserveEligible(Some("COVID-19"))
  {
    IndexOfFirst("IR-R", '-', 2);
    SplitHead("IR-R", '-');
    assert "IR-R"[..2] == "IR";
    IndexOfFirst("COVID-19", '-', 5);
    SplitHead("COVID-19", '-');
    assert "COVID-19"[..5] == "COVID";
  }

  lemma ReserveExampleOther()
    ensures !ReserveEligible(Some("Q")) && !ReserveEligible(Some("IRX")) && !ReserveEligible(None)
  {
    SplitWithoutSep("Q", '-');
    SplitWithoutSep("IRX", '-');
  }
}
