/**
  The alert history of an installation (`updateAlertHistory`): every heartbeat folds the alerts it carries
  into a list of entries, one per alert key. `Update` is the program's step; the run theorems say what the
  list holds after a whole history of heartbeats.
 */
module AlertHistory {
  import Sorting
  import opened Wrappers

  /** An alert of a heartbeat with its key; an absent field is the empty string. */
  datatype Alert = Alert(key: string, level: string, code: string, message: string)

  datatype Entry = Entry(
    key: string, active: bool, level: string, code: string, message: string,
    firstSeenAt: int, lastSeenAt: int, resolvedAt: Option<int>, occurrences: nat)

  function Or(first: string, second: string): string { if first != "" then first else second }

  function Fresh(a: Alert, now: int): Entry {
    Entry(a.key, true, Or(a.level, "warning"), Or(a.code, "generic"), Or(a.message, "Alerta operacional."),
          now, now, None, 1)
  }

  function Touch(e: Entry, a: Alert, now: int): Entry {
    Entry(e.key, true, Or(a.level, Or(e.level, "warning")), Or(a.code, Or(e.code, "generic")),
          Or(a.message, Or(e.message, "Alerta operacional.")),
          e.firstSeenAt, now, None, e.occurrences + 1)
  }

  function Settle(e: Entry, keys: set<string>, now: int): Entry {
    if e.active && e.key !in keys then e.(active := false, resolvedAt := Some(now)) else e
  }

  function Keys(alerts: seq<Alert>): set<string> { set a | a in alerts :: a.key }

  predicate Unique(history: seq<Entry>) {
    forall i, j | 0 <= i < j < |history| :: history[i].key != history[j].key
  }

  predicate Distinct(alerts: seq<Alert>) {
    forall i, j | 0 <= i < j < |alerts| :: alerts[i].key != alerts[j].key
  }

  predicate Has(history: seq<Entry>, key: string) { exists e :: e in history && e.key == key }

  predicate HasActive(history: seq<Entry>, key: string) { exists e :: e in history && e.key == key && e.active }

  // ---------------------------------------------------------------------------------------------
  // One heartbeat
  // ---------------------------------------------------------------------------------------------

  /** What the alerts do to one entry they may match. */
  function TouchAll(e: Entry, alerts: seq<Alert>, now: int): (t: Entry)
    ensures t.key == e.key && t.firstSeenAt == e.firstSeenAt
  {
    if alerts == [] then e
    else
      var t := TouchAll(e, alerts[..|alerts| - 1], now);
      var a := alerts[|alerts| - 1];
      if a.key == e.key then Touch(t, a, now) else t
  }

  /** The entries for the alerts whose key the history did not hold. */
  function Added(history: seq<Entry>, alerts: seq<Alert>, now: int): (added: seq<Entry>)
    ensures |added| <= |alerts|
    ensures forall e | e in added :: e.lastSeenAt == now && e.active
  {
    if alerts == [] then []
    else
      var a := alerts[|alerts| - 1];
      Added(history, alerts[..|alerts| - 1], now) + if Has(history, a.key) then [] else [Fresh(a, now)]
  }

  /** The entry an alert with this key is counted on: the index map keeps the last one. */
  predicate Last(history: seq<Entry>, i: nat)
    requires i < |history|
  {
    forall j | i < j < |history| :: history[j].key != history[i].key
  }

  function Noted(history: seq<Entry>, alerts: seq<Alert>, now: int): seq<Entry> {
    seq(|history|, i requires 0 <= i < |history| =>
      if Last(history, i) then TouchAll(history[i], alerts, now) else history[i]) + Added(history, alerts, now)
  }

  function Settled(entries: seq<Entry>, keys: set<string>, now: int): (settled: seq<Entry>)
  {
    seq(|entries|, i requires 0 <= i < |entries| => Settle(entries[i], keys, now))
  }

  predicate NoEarlier(a: Entry, b: Entry) { a.lastSeenAt >= b.lastSeenAt }

  /** The stable sort, most recently seen first. */
  function ByRecency(entries: seq<Entry>): (r: seq<Entry>)
    ensures multiset(r) == multiset(entries)
    ensures |r| == |entries|
  {
    Sorting.Sort(entries, NoEarlier)
  }

  predicate Recent(entries: seq<Entry>) {
    forall i, j | 0 <= i < j < |entries| :: entries[i].lastSeenAt >= entries[j].lastSeenAt
  }

  function Combined(history: seq<Entry>, alerts: seq<Alert>, now: int): seq<Entry> {
    Settled(Noted(history, alerts, now), Keys(alerts), now)
  }

  function Update(history: seq<Entry>, alerts: seq<Alert>, now: int, limit: nat): (r: seq<Entry>)
    ensures |r| <= limit
  {
    var sorted := ByRecency(Combined(history, alerts, now));
    if |sorted| <= limit then sorted else sorted[..limit]
  }

  lemma NotedNothing(history: seq<Entry>, now: int)
    ensures Noted(history, [], now) == history
  {
  }

  /** An alert with an unknown key appends an entry; one with a known key changes that entry only. */
  lemma NotedUnknown(history: seq<Entry>, alerts: seq<Alert>, a: Alert, now: int)
    requires !Has(history, a.key)
    ensures Noted(history, alerts + [a], now) == Noted(history, alerts, now) + [Fresh(a, now)]
  {
    hide Touch, Fresh;
    assert (alerts + [a])[..|alerts|] == alerts;
    forall j | 0 <= j < |history|
      ensures TouchAll(history[j], alerts + [a], now) == TouchAll(history[j], alerts, now)
    {
      assert history[j] in history;
    }
  }

  lemma NotedKnown(history: seq<Entry>, alerts: seq<Alert>, a: Alert, now: int, i: nat)
    requires i < |history| && history[i].key == a.key && Last(history, i)
    ensures var noted := Noted(history, alerts, now);
            Noted(history, alerts + [a], now) == noted[i := Touch(noted[i], a, now)]
  {
    hide Touch, Fresh;
    assert (alerts + [a])[..|alerts|] == alerts;
    assert history[i] in history && Has(history, a.key);
    assert Added(history, alerts + [a], now) == Added(history, alerts, now);
    forall j | 0 <= j < |history|
      ensures j != i && Last(history, j) ==> history[j].key != a.key
    {
    }
    hide Last, Added, Has;
    var noted, next := Noted(history, alerts, now), Noted(history, alerts + [a], now);
    assert |next| == |noted|;
    assert forall j | 0 <= j < |history| && j != i :: next[j] == noted[j];
    assert next[|history|..] == noted[|history|..];
  }

  /** `new Map(...)` over the entries: the last entry of a key wins. */
  method IndexByKey(history: seq<Entry>) returns (index: map<string, nat>)
    ensures forall k | k in index :: index[k] < |history| && history[index[k]].key == k && Last(history, index[k])
    ensures forall e | e in history :: e.key in index
  {
    index := map[];
    for i := 0 to |history|
      invariant forall k | k in index :: index[k] < i && history[index[k]].key == k
      invariant forall j | 0 <= j < i :: history[j].key in index && j <= index[history[j].key]
    {
      index := index[history[i].key := i];
    }
  }

  method SettleAll(noted: seq<Entry>, keys: set<string>, now: int) returns (settled: seq<Entry>)
    ensures settled == Settled(noted, keys, now)
  {
    settled := noted;
    for i := 0 to |settled|
      invariant |settled| == |noted|
      invariant forall j | 0 <= j < i :: settled[j] == Settle(noted[j], keys, now)
      invariant forall j | i <= j < |settled| :: settled[j] == noted[j]
    {
      if settled[i].active && settled[i].key !in keys {
        settled := settled[i := settled[i].(active := false, resolvedAt := Some(now))];
      }
    }
  }

  method UpdateAlertHistory(existing: seq<Entry>, alerts: seq<Alert>, now: int, limit: nat)
    returns (history: seq<Entry>)
    ensures history == Update(existing, alerts, now, limit)
  {
    hide Added, TouchAll, Touch, Fresh, ByRecency, Last, Settled;
    history := existing;
    NotedNothing(existing, now);
    assert alerts[..0] == [];
    var indexByKey := IndexByKey(existing);
    for n := 0 to |alerts|
      invariant history == Noted(existing, alerts[..n], now)
    {
      var alert := alerts[n];
      assert alerts[..n + 1] == alerts[..n] + [alert];
      if alert.key !in indexByKey {
        NotedUnknown(existing, alerts[..n], alert, now);
        history := history + [Fresh(alert, now)];
      } else {
        var previous := indexByKey[alert.key];
        NotedKnown(existing, alerts[..n], alert, now, previous);
        history := history[previous := Touch(history[previous], alert, now)];
      }
    }
    assert alerts[..|alerts|] == alerts;
    history := SettleAll(history, Keys(alerts), now);
    history := ByRecency(history);
    if |history| > limit {
      history := history[..limit];
    }
  }

  lemma {:induction false} TouchAllWhenCarried(e: Entry, alerts: seq<Alert>, now: int)
    ensures e.key !in Keys(alerts) ==> TouchAll(e, alerts, now) == e
    ensures e.key in Keys(alerts) ==>
              var t := TouchAll(e, alerts, now);
              t.active && t.lastSeenAt == now && t.resolvedAt == None
    ensures e.key in Keys(alerts) && Distinct(alerts) ==> TouchAll(e, alerts, now).occurrences == e.occurrences + 1
  {
    if alerts != [] {
      var rest, a := alerts[..|alerts| - 1], alerts[|alerts| - 1];
      assert alerts == rest + [a];
      assert Keys(alerts) == Keys(rest) + {a.key};
      TouchAllWhenCarried(e, rest, now);
      assert Distinct(alerts) && a.key == e.key ==> e.key !in Keys(rest);
    }
  }

  /** What one heartbeat makes of one entry. */
  function Evolved(e: Entry, alerts: seq<Alert>, now: int): Entry {
    Settle(TouchAll(e, alerts, now), Keys(alerts), now)
  }

  lemma EvolvedExactly(e: Entry, alerts: seq<Alert>, now: int)
    requires Distinct(alerts)
    ensures var n := Evolved(e, alerts, now);
            && n.key == e.key && n.firstSeenAt == e.firstSeenAt
            && (if e.key in Keys(alerts)
                then n.active && n.lastSeenAt == now && n.resolvedAt == None && n.occurrences == e.occurrences + 1
                else n == e.(active := false, resolvedAt := if e.active then Some(now) else e.resolvedAt))
  {
    TouchAllWhenCarried(e, alerts, now);
  }

  lemma {:induction false} AddedExactly(history: seq<Entry>, alerts: seq<Alert>, now: int, e: Entry)
    ensures e in Added(history, alerts, now) <==> exists a :: a in alerts && !Has(history, a.key) && e == Fresh(a, now)
  {
    if alerts != [] {
      var rest, a := alerts[..|alerts| - 1], alerts[|alerts| - 1];
      assert alerts == rest + [a];
      AddedExactly(history, rest, now, e);
    }
  }

  /** Positions of the alerts, among the first `n`, whose key is not listed. */
  function NewAt(history: seq<Entry>, alerts: seq<Alert>, n: nat): (at: seq<nat>)
    requires n <= |alerts|
    ensures forall p, q | 0 <= p < q < |at| :: at[p] < at[q]
    ensures forall i: nat :: i in at <==> i < n && !Has(history, alerts[i].key)
    ensures forall p | 0 <= p < |at| :: at[p] < n
  {
    if n == 0 then []
    else NewAt(history, alerts, n - 1) + if Has(history, alerts[n - 1].key) then [] else [n - 1]
  }

  /** The new entries stand in the order of their alerts, one for each whose key is not listed. */
  lemma {:induction false} AddedInOrder(history: seq<Entry>, alerts: seq<Alert>, now: int, n: nat)
    requires n <= |alerts|
    ensures var at, added := NewAt(history, alerts, n), Added(history, alerts[..n], now);
            |at| == |added| && forall p | 0 <= p < |at| :: added[p] == Fresh(alerts[at[p]], now)
  {
    if n > 0 {
      AddedInOrder(history, alerts, now, n - 1);
      AddedStep(history, alerts, now, n);
    }
    hide Fresh, Has, Added, NewAt;
  }

  lemma AddedStep(history: seq<Entry>, alerts: seq<Alert>, now: int, n: nat)
    requires 0 < n <= |alerts|
    ensures var a := alerts[n - 1];
            && Added(history, alerts[..n], now)
               == Added(history, alerts[..n - 1], now) + (if Has(history, a.key) then [] else [Fresh(a, now)])
            && NewAt(history, alerts, n) == NewAt(history, alerts, n - 1) + (if Has(history, a.key) then [] else [n - 1])
  {
    hide Fresh, Has;
    assert alerts[..n][..n - 1] == alerts[..n - 1];
  }

  /** Before sorting: the old entries, evolved, and an entry for every alert with a key not yet there. */
  lemma CombinedParts(history: seq<Entry>, alerts: seq<Alert>, now: int)
    requires Unique(history)
    ensures Combined(history, alerts, now)
         == seq(|history|, i requires 0 <= i < |history| => Evolved(history[i], alerts, now)) + Added(history, alerts, now)
  {
    AddedIsSettled(history, alerts, now);
    NotedParts(history, alerts, now);
    hide Added, TouchAll, Settle, Noted, Unique, Keys;
    var touched := seq(|history|, i requires 0 <= i < |history| => TouchAll(history[i], alerts, now));
    SettledJoined(touched, Added(history, alerts, now), Keys(alerts), now);
    assert Settled(touched, Keys(alerts), now)
        == seq(|history|, i requires 0 <= i < |history| => Evolved(history[i], alerts, now));
  }

  lemma AddedIsSettled(history: seq<Entry>, alerts: seq<Alert>, now: int)
    ensures Settled(Added(history, alerts, now), Keys(alerts), now) == Added(history, alerts, now)
  {
    var added := Added(history, alerts, now);
    forall i | 0 <= i < |added|
      ensures Settle(added[i], Keys(alerts), now) == added[i]
    {
      AddedExactly(history, alerts, now, added[i]);
    }
  }

  lemma NotedParts(history: seq<Entry>, alerts: seq<Alert>, now: int)
    requires Unique(history)
    ensures Noted(history, alerts, now)
         == seq(|history|, i requires 0 <= i < |history| => TouchAll(history[i], alerts, now)) + Added(history, alerts, now)
  {
    forall i | 0 <= i < |history|
      ensures Last(history, i)
    {
    }
    hide Added, TouchAll, Last, Unique;
  }

  lemma SettledJoined(a: seq<Entry>, b: seq<Entry>, keys: set<string>, now: int)
    ensures Settled(a + b, keys, now) == Settled(a, keys, now) + Settled(b, keys, now)
  {
    hide Settle;
  }

  lemma CombinedExactly(history: seq<Entry>, alerts: seq<Alert>, now: int, e: Entry)
    requires Unique(history)
    ensures e in Combined(history, alerts, now) <==>
            || (exists b :: b in history && e == Evolved(b, alerts, now))
            || (exists a :: a in alerts && !Has(history, a.key) && e == Fresh(a, now))
  {
    hide Evolved, Fresh, Added;
    CombinedParts(history, alerts, now);
    AddedExactly(history, alerts, now, e);
    var old' := seq(|history|, i requires 0 <= i < |history| => Evolved(history[i], alerts, now));
    forall b | b in history
      ensures Evolved(b, alerts, now) in old'
    {
      var i :| 0 <= i < |history| && history[i] == b;
      assert old'[i] == Evolved(b, alerts, now);
    }
  }

  // ---------------------------------------------------------------------------------------------
  // Sorting and trimming
  // ---------------------------------------------------------------------------------------------

  function KeySet(history: seq<Entry>): set<string> { set e | e in history :: e.key }

  lemma {:induction false} UniqueCounts(history: seq<Entry>)
    ensures |KeySet(history)| <= |history|
    ensures Unique(history) <==> |KeySet(history)| == |history|
  {
    if history != [] {
      var rest, e := history[..|history| - 1], history[|history| - 1];
      assert history == rest + [e];
      assert KeySet(history) == KeySet(rest) + {e.key};
      UniqueCounts(rest);
    }
  }

  lemma {:induction false} DistinctCounts(alerts: seq<Alert>)
    ensures |Keys(alerts)| <= |alerts|
    ensures Distinct(alerts) ==> |Keys(alerts)| == |alerts|
  {
    if alerts != [] {
      var rest, a := alerts[..|alerts| - 1], alerts[|alerts| - 1];
      assert alerts == rest + [a];
      assert Keys(alerts) == Keys(rest) + {a.key};
      DistinctCounts(rest);
    }
  }

  lemma SameEntries(a: seq<Entry>, b: seq<Entry>)
    requires multiset(a) == multiset(b)
    ensures forall e :: e in a <==> e in b
    ensures KeySet(a) == KeySet(b)
  {
    assert forall e :: e in a <==> e in multiset(a);
    assert forall e :: e in b <==> e in multiset(b);
  }

  /** The sort sorts and keeps the entries apart. */
  lemma ByRecencySorts(entries: seq<Entry>)
    ensures Recent(ByRecency(entries))
    ensures Unique(entries) ==> Unique(ByRecency(entries))
  {
    Sorting.SortSorts(entries, NoEarlier);
    assert forall i, j | 0 <= i < j < |entries| :: NoEarlier(ByRecency(entries)[i], ByRecency(entries)[j]);
    SameEntries(entries, ByRecency(entries));
    UniqueCounts(entries);
    UniqueCounts(ByRecency(entries));
  }

  /** Entries last seen at the same time stay in their order. */
  lemma ByRecencyIsStable(entries: seq<Entry>, e: Entry)
    ensures Sorting.Alike(ByRecency(entries), e, NoEarlier) == Sorting.Alike(entries, e, NoEarlier)
  {
    Sorting.SortIsStable(entries, e, NoEarlier);
  }

  /** Trimming drops only the oldest entries, and only when the list is full. */
  lemma TrimDropsOldest(history: seq<Entry>, alerts: seq<Alert>, now: int, limit: nat, e: Entry)
    requires e in Combined(history, alerts, now)
    ensures var r := Update(history, alerts, now, limit);
            || e in r
            || (|r| == limit && forall x | x in r :: x.lastSeenAt >= e.lastSeenAt)
  {
    var all := Combined(history, alerts, now);
    var sorted := ByRecency(all);
    ByRecencySorts(all);
    SameEntries(all, sorted);
    var i :| 0 <= i < |sorted| && sorted[i] == e;
    assert i < limit ==> e in Update(history, alerts, now, limit);
  }

  lemma UpdateOnlyKeeps(history: seq<Entry>, alerts: seq<Alert>, now: int, limit: nat)
    ensures Recent(Update(history, alerts, now, limit))
    ensures forall e | e in Update(history, alerts, now, limit) :: e in Combined(history, alerts, now)
    ensures Unique(Combined(history, alerts, now)) ==> Unique(Update(history, alerts, now, limit))
  {
    var all := Combined(history, alerts, now);
    ByRecencySorts(all);
    SameEntries(all, ByRecency(all));
  }

  // ---------------------------------------------------------------------------------------------
  // What one heartbeat guarantees
  // ---------------------------------------------------------------------------------------------

  /** No unknown key comes twice. */
  predicate NewDistinct(history: seq<Entry>, alerts: seq<Alert>) {
    forall i, j | 0 <= i < j < |alerts| && alerts[i].key == alerts[j].key :: Has(history, alerts[i].key)
  }

  lemma {:induction false} AddedUnique(history: seq<Entry>, alerts: seq<Alert>, now: int)
    ensures Unique(Added(history, alerts, now)) <==> NewDistinct(history, alerts)
    ensures forall e | e in Added(history, alerts, now) :: !Has(history, e.key)
  {
    if alerts != [] {
      var rest, a := alerts[..|alerts| - 1], alerts[|alerts| - 1];
      assert alerts == rest + [a];
      AddedUnique(history, rest, now);
      NewDistinctLast(history, rest, a);
      var added := Added(history, rest, now);
      if !Has(history, a.key) {
        assert (exists b :: b in rest && b.key == a.key) <==> (exists e :: e in added && e.key == a.key) by {
          AddedKeys(history, rest, now, a.key);
        }
        LastApart(added, Fresh(a, now));
        assert Added(history, alerts, now) == added + [Fresh(a, now)];
      } else {
        assert Added(history, alerts, now) == added;
      }
    }
  }

  lemma NewDistinctLast(history: seq<Entry>, alerts: seq<Alert>, last: Alert)
    ensures NewDistinct(history, alerts + [last])
       <==> NewDistinct(history, alerts) && (Has(history, last.key) || !exists a :: a in alerts && a.key == last.key)
  {
    var all := alerts + [last];
    if NewDistinct(history, all) {
      assert forall i | 0 <= i < |alerts| :: alerts[i] == all[i];
      assert all[|alerts|] == last;
    }
  }

  lemma AddedKeys(history: seq<Entry>, alerts: seq<Alert>, now: int, key: string)
    requires !Has(history, key)
    ensures (exists a :: a in alerts && a.key == key) <==> (exists e :: e in Added(history, alerts, now) && e.key == key)
  {
    forall e
      ensures e in Added(history, alerts, now) <==> exists a :: a in alerts && !Has(history, a.key) && e == Fresh(a, now)
    {
      AddedExactly(history, alerts, now, e);
    }
    if a :| a in alerts && a.key == key {
      assert Fresh(a, now) in Added(history, alerts, now);
    }
  }

  lemma LastApart(entries: seq<Entry>, last: Entry)
    ensures Unique(entries + [last]) <==> Unique(entries) && !exists e :: e in entries && e.key == last.key
  {
    assert (exists e :: e in entries && e.key == last.key) <==> !forall i | 0 <= i < |entries| :: entries[i].key != last.key;
    JoinApart(entries, [last]);
    assert [last][0] == last;
  }

  lemma JoinApart(front: seq<Entry>, back: seq<Entry>)
    ensures Unique(front + back) <==>
            && Unique(front) && Unique(back)
            && forall i, j | 0 <= i < |front| && 0 <= j < |back| :: front[i].key != back[j].key
  {
    var all := front + back;
    if Unique(all) {
      assert forall i | 0 <= i < |front| :: front[i] == all[i];
      assert forall j | 0 <= j < |back| :: back[j] == all[|front| + j];
    }
  }

  /** Before sorting there is one entry per key exactly when no unknown key came twice. */
  lemma CombinedUnique(history: seq<Entry>, alerts: seq<Alert>, now: int)
    requires Unique(history)
    ensures Unique(Combined(history, alerts, now)) <==> NewDistinct(history, alerts)
  {
    hide Added, Evolved, Combined;
    CombinedParts(history, alerts, now);
    AddedUnique(history, alerts, now);
    var old' := seq(|history|, i requires 0 <= i < |history| => Evolved(history[i], alerts, now));
    forall i | 0 <= i < |history|
      ensures old'[i].key == history[i].key && Has(history, old'[i].key)
    {
      EvolvedKey(history[i], alerts, now);
    }
    JoinApart(old', Added(history, alerts, now));
  }

  lemma EvolvedKey(e: Entry, alerts: seq<Alert>, now: int)
    ensures Evolved(e, alerts, now).key == e.key
  {
  }

  /** Where nothing is trimmed, one entry per key is left exactly when no unknown key came twice. */
  lemma OneEntryPerKeyExactly(history: seq<Entry>, alerts: seq<Alert>, now: int, limit: nat)
    requires Unique(history) && |history| + |alerts| <= limit
    ensures Unique(Update(history, alerts, now, limit)) <==> NewDistinct(history, alerts)
  {
    hide Combined, ByRecency;
    var all := Combined(history, alerts, now);
    CombinedParts(history, alerts, now);
    CombinedUnique(history, alerts, now);
    SameEntries(all, ByRecency(all));
    UniqueCounts(all);
    UniqueCounts(ByRecency(all));
  }

  predicate Before(history: seq<Entry>, now: int) { forall e | e in history :: e.lastSeenAt < now }

  /** The entries seen now are those of the alerts. */
  lemma SeenNowExactly(history: seq<Entry>, alerts: seq<Alert>, now: int, key: string)
    requires Unique(history) && Distinct(alerts) && Before(history, now)
    ensures key in Keys(alerts) <==> exists e :: e in Combined(history, alerts, now) && e.lastSeenAt == now && e.key == key
    ensures forall e | e in Combined(history, alerts, now) ::
              e.lastSeenAt <= now && (e.active <==> e.key in Keys(alerts)) && (e.lastSeenAt == now <==> e.key in Keys(alerts))
  {
    hide Combined, Evolved;
    forall e | e in Combined(history, alerts, now)
      ensures e.lastSeenAt <= now && (e.active <==> e.key in Keys(alerts)) && (e.lastSeenAt == now <==> e.key in Keys(alerts))
    {
      CombinedExactly(history, alerts, now, e);
      if b :| b in history && e == Evolved(b, alerts, now) {
        EvolvedExactly(b, alerts, now);
      }
    }
    if key in Keys(alerts) {
      var a :| a in alerts && a.key == key;
      if b :| b in history && b.key == key {
        EvolvedExactly(b, alerts, now);
        CombinedExactly(history, alerts, now, Evolved(b, alerts, now));
      } else {
        CombinedExactly(history, alerts, now, Fresh(a, now));
      }
    }
  }

  /**
    One entry per key is kept, and the active entries are those of the alerts just received:
    all of them exactly when the alerts fit the ceiling.
   */
  lemma ActiveExactly(history: seq<Entry>, alerts: seq<Alert>, now: int, limit: nat)
    requires Unique(history) && Distinct(alerts) && Before(history, now)
    ensures var r := Update(history, alerts, now, limit);
            && Unique(r)
            && (forall e | e in r :: e.active <==> e.key in Keys(alerts))
            && ((forall key | key in Keys(alerts) :: Has(r, key)) <==> |alerts| <= limit)
  {
    hide Update, Combined, ByRecency;
    var r := Update(history, alerts, now, limit);
    CombinedUnique(history, alerts, now);
    UpdateOnlyKeeps(history, alerts, now, limit);
    SeenNowExactly(history, alerts, now, "");
    DistinctCounts(alerts);
    if |alerts| <= limit {
      forall key | key in Keys(alerts)
        ensures Has(r, key)
      {
        CarriedIsKept(history, alerts, now, limit, key);
      }
    } else if forall key | key in Keys(alerts) :: Has(r, key) {
      forall key | key in Keys(alerts)
        ensures key in KeySet(r)
      {
        assert Has(r, key);
      }
      SubsetIsSmaller(Keys(alerts), KeySet(r));
      UniqueCounts(r);
    }
  }

  lemma CarriedIsKept(history: seq<Entry>, alerts: seq<Alert>, now: int, limit: nat, key: string)
    requires Unique(history) && Distinct(alerts) && Before(history, now) && |alerts| <= limit && key in Keys(alerts)
    ensures Has(Update(history, alerts, now, limit), key)
  {
    hide Combined, Update;
    var r := Update(history, alerts, now, limit);
    SeenNowExactly(history, alerts, now, key);
    var e :| e in Combined(history, alerts, now) && e.lastSeenAt == now && e.key == key;
    TrimDropsOldest(history, alerts, now, limit, e);
    if !Has(r, key) {
      OnlyCarried(history, alerts, now, limit, key);
    }
  }

  /** A full list of entries seen now, without one of the keys carried, would need more keys than there are alerts. */
  lemma OnlyCarried(history: seq<Entry>, alerts: seq<Alert>, now: int, limit: nat, key: string)
    requires Unique(history) && Distinct(alerts) && Before(history, now) && key in Keys(alerts)
    requires var r := Update(history, alerts, now, limit);
             !Has(r, key) && |r| == limit && forall e | e in r :: e.lastSeenAt >= now
    ensures |alerts| > limit
  {
    hide Combined, Update;
    var r := Update(history, alerts, now, limit);
    CombinedUnique(history, alerts, now);
    UpdateOnlyKeeps(history, alerts, now, limit);
    SeenNowExactly(history, alerts, now, key);
    UniqueCounts(r);
    DistinctCounts(alerts);
    SubsetIsSmaller(KeySet(r) + {key}, Keys(alerts));
  }

  // ---------------------------------------------------------------------------------------------
  // Histories of heartbeats
  // ---------------------------------------------------------------------------------------------

  datatype Beat = Beat(at: int, alerts: seq<Alert>)

  /** Heartbeats strictly later than one another, each with different alerts that fit the ceiling. */
  predicate Steady(beats: seq<Beat>, limit: nat) {
    && (forall i, j | 0 <= i < j < |beats| :: beats[i].at < beats[j].at)
    && (forall i | 0 <= i < |beats| :: Distinct(beats[i].alerts) && |beats[i].alerts| <= limit)
  }

  function History(beats: seq<Beat>, limit: nat): seq<Entry> {
    if beats == [] then []
    else
      var last := beats[|beats| - 1];
      Update(History(beats[..|beats| - 1], limit), last.alerts, last.at, limit)
  }

  predicate Carries(beats: seq<Beat>, i: int, key: string)
    requires 0 <= i < |beats|
  {
    key in Keys(beats[i].alerts)
  }

  /** How many of the heartbeats from `from` on carried the key. */
  function Sightings(beats: seq<Beat>, key: string, from: nat): nat {
    if |beats| <= from then 0
    else Sightings(beats[..|beats| - 1], key, from) + if Carries(beats, |beats| - 1, key) then 1 else 0
  }

  /** The entry tells the truth about its key, which came up at `first` and was last carried at `seen`. */
  predicate Tells(beats: seq<Beat>, e: Entry, first: nat, seen: nat) {
    && first <= seen < |beats|
    && Carries(beats, first, e.key) && e.firstSeenAt == beats[first].at
    && Carries(beats, seen, e.key) && e.lastSeenAt == beats[seen].at
    && (forall i | seen < i < |beats| :: !Carries(beats, i, e.key))
    && e.occurrences == Sightings(beats, e.key, first)
    && (e.active <==> seen == |beats| - 1)
    && e.resolvedAt == if e.active then None else Some(beats[seen + 1].at)
  }

  lemma {:induction false} EntryTells(beats: seq<Beat>, limit: nat, e: Entry) returns (first: nat, seen: nat)
    requires Steady(beats, limit) && e in History(beats, limit)
    ensures Tells(beats, e, first, seen)
  {
    hide Update, Combined, Evolved, Sightings;
    var earlier, last := beats[..|beats| - 1], beats[|beats| - 1];
    var history := History(earlier, limit);
    HistoryUnique(earlier, limit);
    UpdateOnlyKeeps(history, last.alerts, last.at, limit);
    CombinedExactly(history, last.alerts, last.at, e);
    if b :| b in history && e == Evolved(b, last.alerts, last.at) {
      var f, s := EntryTells(earlier, limit, b);
      first, seen := f, if Carries(beats, |beats| - 1, b.key) then |beats| - 1 else s;
      TellsNext(beats, limit, b, f, s);
    } else {
      first, seen := |beats| - 1, |beats| - 1;
      SightingsNext(beats, e.key, first);
    }
  }

  lemma TellsNext(beats: seq<Beat>, limit: nat, b: Entry, first: nat, seen: nat)
    requires Steady(beats, limit) && beats != [] && Tells(beats[..|beats| - 1], b, first, seen)
    ensures Tells(beats, Evolved(b, beats[|beats| - 1].alerts, beats[|beats| - 1].at), first,
                  if Carries(beats, |beats| - 1, b.key) then |beats| - 1 else seen)
  {
    hide Evolved, Sightings;
    var earlier := beats[..|beats| - 1];
    EvolvedExactly(b, beats[|beats| - 1].alerts, beats[|beats| - 1].at);
    SightingsNext(beats, b.key, first);
    assert forall i | 0 <= i < |earlier| :: Carries(earlier, i, b.key) == Carries(beats, i, b.key);
  }

  lemma SightingsNext(beats: seq<Beat>, key: string, from: nat)
    requires from < |beats|
    ensures Sightings(beats, key, from)
         == Sightings(beats[..|beats| - 1], key, from) + if Carries(beats, |beats| - 1, key) then 1 else 0
    ensures from == |beats| - 1 ==> Sightings(beats[..|beats| - 1], key, from) == 0
  {
  }

  lemma {:induction false} HistoryUnique(beats: seq<Beat>, limit: nat)
    requires Steady(beats, limit)
    ensures Unique(History(beats, limit))
  {
    if beats != [] {
      var earlier, last := beats[..|beats| - 1], beats[|beats| - 1];
      HistoryUnique(earlier, limit);
      CombinedUnique(History(earlier, limit), last.alerts, last.at);
      UpdateOnlyKeeps(History(earlier, limit), last.alerts, last.at, limit);
    }
  }

  lemma HistorySound(beats: seq<Beat>, limit: nat)
    requires Steady(beats, limit)
    ensures Unique(History(beats, limit))
    ensures forall e | e in History(beats, limit) :: beats != [] && e.lastSeenAt <= beats[|beats| - 1].at
  {
    hide Update;
    HistoryUnique(beats, limit);
    forall e | e in History(beats, limit)
      ensures beats != [] && e.lastSeenAt <= beats[|beats| - 1].at
    {
      var _, _ := EntryTells(beats, limit, e);
    }
  }

  /**
    After any steady history of heartbeats the list holds one entry per key, latest first, every entry tells
    the truth about its key, and the active ones are exactly the alerts of the last heartbeat.
   */
  lemma HistoryTellsTruth(beats: seq<Beat>, limit: nat)
    requires Steady(beats, limit) && beats != []
    ensures var h := History(beats, limit);
            && Unique(h) && Recent(h) && |h| <= limit
            && (forall e | e in h :: exists first, seen :: Tells(beats, e, first, seen))
            && (forall e | e in h && e.active :: e.key in Keys(beats[|beats| - 1].alerts))
            && (forall key | key in Keys(beats[|beats| - 1].alerts) :: HasActive(h, key))
  {
    hide Update, Tells;
    var earlier, last := beats[..|beats| - 1], beats[|beats| - 1];
    HistorySound(earlier, limit);
    ActiveExactly(History(earlier, limit), last.alerts, last.at, limit);
    UpdateOnlyKeeps(History(earlier, limit), last.alerts, last.at, limit);
    var h := History(beats, limit);
    forall e | e in h
      ensures exists first, seen :: Tells(beats, e, first, seen)
    {
      var first, seen := EntryTells(beats, limit, e);
    }
    forall key | key in Keys(last.alerts)
      ensures HasActive(h, key)
    {
      assert Has(h, key);
    }
  }

  /** A key that was carried and is no longer listed was pushed out by `limit` entries at least as recent. */
  lemma {:induction false} ForgottenIsOldest(beats: seq<Beat>, limit: nat, i: nat, key: string)
    requires Steady(beats, limit) && i < |beats| && Carries(beats, i, key)
    ensures var h := History(beats, limit);
            || (exists e :: e in h && e.key == key && e.lastSeenAt >= beats[i].at)
            || (|h| == limit && forall e | e in h :: e.lastSeenAt >= beats[i].at)
  {
    hide Update, Combined, Evolved;
    var earlier, last := beats[..|beats| - 1], beats[|beats| - 1];
    var history := History(earlier, limit);
    HistorySound(earlier, limit);
    if key in Keys(last.alerts) {
      CarriedIsKept(history, last.alerts, last.at, limit, key);
      var e :| e in History(beats, limit) && e.key == key;
      UpdateOnlyKeeps(history, last.alerts, last.at, limit);
      SeenNowExactly(history, last.alerts, last.at, key);
    } else {
      assert Carries(earlier, i, key);
      ForgottenIsOldest(earlier, limit, i, key);
      if b :| b in history && b.key == key && b.lastSeenAt >= beats[i].at {
        EvolvedExactly(b, last.alerts, last.at);
        CombinedExactly(history, last.alerts, last.at, Evolved(b, last.alerts, last.at));
        TrimDropsOldest(history, last.alerts, last.at, limit, Evolved(b, last.alerts, last.at));
      } else {
        FullStaysFull(history, last.alerts, last.at, limit, beats[i].at);
      }
    }
  }

  lemma FullStaysFull(history: seq<Entry>, alerts: seq<Alert>, now: int, limit: nat, since: int)
    requires Unique(history) && Distinct(alerts) && Before(history, now) && since <= now
    requires |history| == limit && forall e | e in history :: e.lastSeenAt >= since
    ensures |Update(history, alerts, now, limit)| == limit
    ensures forall e | e in Update(history, alerts, now, limit) :: e.lastSeenAt >= since
  {
    hide Combined, Evolved;
    UpdateOnlyKeeps(history, alerts, now, limit);
    CombinedParts(history, alerts, now);
    forall e | e in Update(history, alerts, now, limit)
      ensures e.lastSeenAt >= since
    {
      CombinedExactly(history, alerts, now, e);
      if b :| b in history && e == Evolved(b, alerts, now) {
        EvolvedExactly(b, alerts, now);
      }
    }
  }

  function AllKeys(beats: seq<Beat>): set<string> {
    if beats == [] then {} else AllKeys(beats[..|beats| - 1]) + Keys(beats[|beats| - 1].alerts)
  }

  lemma {:induction false} AllKeysExactly(beats: seq<Beat>, key: string)
    ensures key in AllKeys(beats) <==> exists i :: 0 <= i < |beats| && Carries(beats, i, key)
  {
    if beats != [] {
      var earlier := beats[..|beats| - 1];
      AllKeysExactly(earlier, key);
      assert forall i | 0 <= i < |earlier| :: Carries(earlier, i, key) == Carries(beats, i, key);
      assert Carries(beats, |beats| - 1, key) <==> key in Keys(beats[|beats| - 1].alerts);
    }
  }

  /** While no more keys have come up than the ceiling, none is forgotten. */
  lemma {:induction false} NothingForgotten(beats: seq<Beat>, limit: nat, key: string)
    requires Steady(beats, limit) && |AllKeys(beats)| <= limit && key in AllKeys(beats)
    ensures Has(History(beats, limit), key)
  {
    var h := History(beats, limit);
    AllKeysExactly(beats, key);
    var i :| 0 <= i < |beats| && Carries(beats, i, key);
    ForgottenIsOldest(beats, limit, i, key);
    if !Has(h, key) {
      HistorySound(beats, limit);
      UniqueCounts(h);
      forall k | k in KeySet(h)
        ensures k in AllKeys(beats)
      {
        var e :| e in h && e.key == k;
        var first, _ := EntryTells(beats, limit, e);
        AllKeysExactly(beats, k);
      }
      SubsetIsSmaller(KeySet(h) + {key}, AllKeys(beats));
      assert false;
    }
  }

  /** And then an entry has counted every heartbeat that carried its key. */
  lemma {:induction false} OccurrencesCountAll(beats: seq<Beat>, limit: nat, e: Entry)
    requires Steady(beats, limit) && |AllKeys(beats)| <= limit && e in History(beats, limit)
    ensures e.occurrences == Sightings(beats, e.key, 0)
  {
    hide Update, Combined, Evolved, Fresh;
    var earlier, last := beats[..|beats| - 1], beats[|beats| - 1];
    var history := History(earlier, limit);
    SubsetIsSmaller(AllKeys(earlier), AllKeys(beats));
    HistoryUnique(earlier, limit);
    UpdateOnlyKeeps(history, last.alerts, last.at, limit);
    CombinedExactly(history, last.alerts, last.at, e);
    if b :| b in history && e == Evolved(b, last.alerts, last.at) {
      OccurrencesCountAll(earlier, limit, b);
      EvolvedExactly(b, last.alerts, last.at);
    } else {
      var a :| a in last.alerts && !Has(history, a.key) && e == Fresh(a, last.at);
      FreshCounts(earlier, limit, a, last.at);
    }
  }

  lemma FreshCounts(beats: seq<Beat>, limit: nat, a: Alert, now: int)
    requires Steady(beats, limit) && |AllKeys(beats)| <= limit && !Has(History(beats, limit), a.key)
    ensures Fresh(a, now).key == a.key && Fresh(a, now).occurrences == 1 && Sightings(beats, a.key, 0) == 0
  {
    if a.key in AllKeys(beats) {
      NothingForgotten(beats, limit, a.key);
    }
    NeverSighted(beats, a.key);
  }

  lemma {:induction false} NeverSighted(beats: seq<Beat>, key: string)
    requires key !in AllKeys(beats)
    ensures Sightings(beats, key, 0) == 0
  {
    if beats != [] {
      NeverSighted(beats[..|beats| - 1], key);
    }
  }

  // ---------------------------------------------------------------------------------------------
  // What an entry shows
  // ---------------------------------------------------------------------------------------------

  /** The three texts of an alert. */
  datatype Field = Level | Code | Message

  function TextOf(a: Alert, f: Field): string {
    match f case Level => a.level case Code => a.code case Message => a.message
  }

  function Shown(e: Entry, f: Field): string {
    match f case Level => e.level case Code => e.code case Message => e.message
  }

  function Default(f: Field): string {
    match f case Level => "warning" case Code => "generic" case Message => "Alerta operacional."
  }

  /** From beat `from` on no alert of the key had this text. */
  predicate Silent(beats: seq<Beat>, key: string, f: Field, from: nat) {
    forall j, a | from <= j < |beats| && a in beats[j].alerts && a.key == key :: TextOf(a, f) == ""
  }

  /** The text is the latest that an alert of the key had since `first`, or the default if none had one. */
  predicate Latest(beats: seq<Beat>, key: string, f: Field, first: nat, text: string) {
    || (text == Default(f) && Silent(beats, key, f, first))
    || (text != "" && exists i: nat, a :: first <= i < |beats| && a in beats[i].alerts && a.key == key
                                          && TextOf(a, f) == text && Silent(beats, key, f, i + 1))
  }

  lemma {:induction false} TouchShows(e: Entry, alerts: seq<Alert>, now: int, a: Alert, f: Field)
    requires Distinct(alerts) && a in alerts && a.key == e.key && Shown(e, f) != ""
    ensures Shown(TouchAll(e, alerts, now), f) == if TextOf(a, f) != "" then TextOf(a, f) else Shown(e, f)
  {
    var n := |alerts| - 1;
    assert alerts == alerts[..n] + [alerts[n]];
    if alerts[n].key == e.key {
      assert a == alerts[n];
      forall i | 0 <= i < n
        ensures alerts[i].key != e.key
      {
        assert alerts[i].key != alerts[n].key;
      }
      assert forall b | b in alerts[..n] :: b.key != e.key;
      TouchAllWhenCarried(e, alerts[..n], now);
    } else {
      TouchShows(e, alerts[..n], now, a, f);
    }
  }

  lemma LatestNext(beats: seq<Beat>, key: string, f: Field, first: nat, text: string)
    requires beats != [] && first < |beats| - 1
    requires Latest(beats[..|beats| - 1], key, f, first, text) && Silent(beats, key, f, |beats| - 1)
    ensures Latest(beats, key, f, first, text)
  {
    var n := |beats| - 1;
    var earlier := beats[..n];
    assert forall j | 0 <= j < n :: earlier[j] == beats[j];
    if i: nat, a :| first <= i < n && a in earlier[i].alerts && a.key == key
                    && TextOf(a, f) == text && Silent(earlier, key, f, i + 1) {
      assert Silent(beats, key, f, i + 1);
    }
  }

  lemma LatestNow(beats: seq<Beat>, key: string, f: Field, first: nat, a: Alert)
    requires beats != [] && first < |beats| && a in beats[|beats| - 1].alerts && a.key == key && TextOf(a, f) != ""
    ensures Latest(beats, key, f, first, TextOf(a, f))
  {
    assert Silent(beats, key, f, |beats| - 1 + 1);
  }

  /** At most one alert of a beat has the key. */
  lemma OneOfKey(alerts: seq<Alert>, a: Alert, b: Alert)
    requires Distinct(alerts) && a in alerts && b in alerts && a.key == b.key
    ensures a == b
  {
  }

  /** The level, code and message of an entry are the latest that its key came with since it came up; a missing one is the default. */
  lemma {:induction false} EntryShows(beats: seq<Beat>, limit: nat, e: Entry, f: Field) returns (first: nat)
    requires Steady(beats, limit) && e in History(beats, limit)
    ensures first < |beats| && e.firstSeenAt == beats[first].at && Latest(beats, e.key, f, first, Shown(e, f))
  {
    hide Update, Combined, TouchAll, Latest, Shown, TextOf;
    var n := |beats| - 1;
    var earlier, last := beats[..n], beats[n];
    var history := History(earlier, limit);
    HistoryUnique(earlier, limit);
    UpdateOnlyKeeps(history, last.alerts, last.at, limit);
    CombinedExactly(history, last.alerts, last.at, e);
    if b :| b in history && e == Evolved(b, last.alerts, last.at) {
      first := EntryShows(earlier, limit, b, f);
      EvolvedShows(beats, b, f, first);
    } else {
      var a :| a in last.alerts && !Has(history, a.key) && e == Fresh(a, last.at);
      first := n;
      FreshShows(beats, a, f);
    }
  }

  lemma EvolvedShows(beats: seq<Beat>, b: Entry, f: Field, first: nat)
    requires beats != [] && Distinct(beats[|beats| - 1].alerts) && first < |beats| - 1
    requires Latest(beats[..|beats| - 1], b.key, f, first, Shown(b, f))
    ensures var last := beats[|beats| - 1];
            var e := Evolved(b, last.alerts, last.at);
            e.key == b.key && e.firstSeenAt == b.firstSeenAt && Latest(beats, e.key, f, first, Shown(e, f))
  {
    hide TouchAll;
    var last := beats[|beats| - 1];
    assert Shown(b, f) != "";
    TouchAllWhenCarried(b, last.alerts, last.at);
    if a :| a in last.alerts && a.key == b.key {
      TouchShows(b, last.alerts, last.at, a, f);
      if TextOf(a, f) != "" {
        LatestNow(beats, b.key, f, first, a);
      } else {
        forall c | c in last.alerts && c.key == b.key
          ensures c == a
        {
          OneOfKey(last.alerts, a, c);
        }
        LatestNext(beats, b.key, f, first, Shown(b, f));
      }
    } else {
      LatestNext(beats, b.key, f, first, Shown(b, f));
    }
  }

  lemma FreshShows(beats: seq<Beat>, a: Alert, f: Field)
    requires beats != [] && Distinct(beats[|beats| - 1].alerts) && a in beats[|beats| - 1].alerts
    ensures Latest(beats, a.key, f, |beats| - 1, Shown(Fresh(a, beats[|beats| - 1].at), f))
  {
    if TextOf(a, f) != "" {
      LatestNow(beats, a.key, f, |beats| - 1, a);
    } else {
      forall c | c in beats[|beats| - 1].alerts && c.key == a.key
        ensures c == a
      {
        OneOfKey(beats[|beats| - 1].alerts, a, c);
      }
      assert Silent(beats, a.key, f, |beats| - 1);
    }
  }
}
