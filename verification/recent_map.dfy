/** The bounded map of the limiters, kept in last-put order, and why forgetting from it changes no decision. */
module RecentMaps {
  import opened Sequences
  import opened Wrappers

  const MAX_KEYS := 10_000
  const COLD_BATCH := 4

  datatype Entry<T> = Entry(key: string, value: T)

  function Find<T>(entries: seq<Entry<T>>, key: string): Option<T> {
    if entries == [] then None
    else if entries[0].key == key then Some(entries[0].value)
    else Find(entries[1..], key)
  }

  /** `delete(key)`. */
  function Without<T>(entries: seq<Entry<T>>, key: string): seq<Entry<T>> {
    if entries == [] then []
    else if entries[0].key == key then Without(entries[1..], key)
    else [entries[0]] + Without(entries[1..], key)
  }

  ghost predicate AreDistinct<T>(entries: seq<Entry<T>>) {
    forall i, j | 0 <= i < j < |entries| :: entries[i].key != entries[j].key
  }

  ghost function KeysOf<T>(entries: seq<Entry<T>>): set<string> {
    set i | 0 <= i < |entries| :: entries[i].key
  }

  /** The entries after a put: the key at the warm end, the coldest gone when there was no room. */
  function After<T>(entries: seq<Entry<T>>, key: string, value: T): seq<Entry<T>> {
    var rest := Without(entries, key);
    (if |rest| < MAX_KEYS then rest else rest[|rest| - MAX_KEYS + 1..]) + [Entry(key, value)]
  }

  /** The entries once the first `n` were inspected. */
  function Inspected<T>(entries: seq<Entry<T>>, n: nat, isStale: T -> bool): seq<Entry<T>> {
    if n == 0 || entries == [] then entries
    else (if isStale(entries[0].value) then [] else [entries[0]]) + Inspected(entries[1..], n - 1, isStale)
  }

  // ---------- lookups ----------

  lemma {:induction false} FindIn<T>(entries: seq<Entry<T>>, key: string) returns (i: nat)
    requires Find(entries, key).Some?
    ensures i < |entries| && entries[i] == Entry(key, Find(entries, key).value)
  {
    if entries[0].key == key {
      i := 0;
    } else {
      var j := FindIn(entries[1..], key);
      i := j + 1;
    }
  }

  lemma {:induction false} FoundAt<T>(entries: seq<Entry<T>>, i: nat)
    requires AreDistinct(entries) && i < |entries|
    ensures Find(entries, entries[i].key) == Some(entries[i].value)
  {
    if i > 0 {
      FoundAt(entries[1..], i - 1);
    }
  }

  lemma FindIffKey<T>(entries: seq<Entry<T>>, key: string)
    ensures Find(entries, key).Some? <==> key in KeysOf(entries)
  {
    if Find(entries, key).Some? {
      var i := FindIn(entries, key);
    }
    if key in KeysOf(entries) {
      var i :| 0 <= i < |entries| && entries[i].key == key;
      HasKey(entries, i);
    }
  }

  lemma {:induction false} HasKey<T>(entries: seq<Entry<T>>, i: nat)
    requires i < |entries|
    ensures Find(entries, entries[i].key).Some?
  {
    if i > 0 {
      HasKey(entries[1..], i - 1);
    }
  }

  lemma {:induction false} DistinctCount<T>(entries: seq<Entry<T>>)
    requires AreDistinct(entries)
    ensures |KeysOf(entries)| == |entries|
  {
    if entries != [] {
      DistinctCount(entries[1..]);
      assert KeysOf(entries) == {entries[0].key} + KeysOf(entries[1..]) by {
        forall k | k in KeysOf(entries)
          ensures k in {entries[0].key} + KeysOf(entries[1..])
        {
          var i :| 0 <= i < |entries| && entries[i].key == k;
          assert i > 0 ==> entries[1..][i - 1].key == k;
        }
        assert forall i | 0 <= i < |entries| - 1 :: entries[1..][i] == entries[i + 1];
      }
    }
  }

  // ---------- deletion ----------

  lemma {:induction false} WithoutIsRest<T>(entries: seq<Entry<T>>, key: string)
    ensures forall i | 0 <= i < |Without(entries, key)| :: Without(entries, key)[i] in entries
    ensures forall i | 0 <= i < |Without(entries, key)| :: Without(entries, key)[i].key != key
    ensures AreDistinct(entries) ==> AreDistinct(Without(entries, key))
    ensures |Without(entries, key)| <= |entries|
  {
    if entries != [] {
      WithoutIsRest(entries[1..], key);
      assert AreDistinct(entries) ==> AreDistinct(entries[1..]);
      var rest := Without(entries[1..], key);
      if AreDistinct(entries) && entries[0].key != key {
        forall i | 0 <= i < |rest|
          ensures rest[i].key != entries[0].key
        {
          var j :| 0 <= j < |entries[1..]| && entries[1..][j] == rest[i];
        }
      }
    }
  }

  lemma {:induction false} FindWithout<T>(entries: seq<Entry<T>>, key: string, other: string)
    ensures Find(Without(entries, key), other) == if other == key then None else Find(entries, other)
  {
    if entries != [] {
      FindWithout(entries[1..], key, other);
    }
  }

  lemma {:induction false} WithoutAbsent<T>(entries: seq<Entry<T>>, key: string)
    requires forall i | 0 <= i < |entries| :: entries[i].key != key
    ensures Without(entries, key) == entries
  {
    if entries != [] {
      WithoutAbsent(entries[1..], key);
    }
  }

  lemma {:induction false} WithoutJoin<T>(a: seq<Entry<T>>, b: seq<Entry<T>>, key: string)
    ensures Without(a + b, key) == Without(a, key) + Without(b, key)
  {
    if a == [] {
      assert a + b == b;
    } else {
      WithoutJoin(a[1..], b, key);
      Uncons(a, b);
      Associates([a[0]], Without(a[1..], key), Without(b, key));
    }
  }

  lemma OthersDiffer<T>(before: seq<Entry<T>>, entry: Entry<T>, after: seq<Entry<T>>)
    requires AreDistinct(before + [entry] + after)
    ensures forall i | 0 <= i < |before| :: before[i].key != entry.key
    ensures forall i | 0 <= i < |after| :: after[i].key != entry.key
  {
    var all := before + [entry] + after;
    assert forall i | 0 <= i < |before| :: all[i] == before[i];
    assert all[|before|] == entry;
    assert forall i | 0 <= i < |after| :: all[|before| + 1 + i] == after[i];
  }

  /** Deleting one entry of a map by its key removes that entry alone. */
  lemma WithoutOne<T>(before: seq<Entry<T>>, entry: Entry<T>, after: seq<Entry<T>>)
    requires AreDistinct(before + [entry] + after)
    ensures Without(before + [entry] + after, entry.key) == before + after
    ensures AreDistinct(before + after)
  {
    hide AreDistinct;
    var all := before + [entry] + after;
    OthersDiffer(before, entry, after);
    WithoutJoin(before + [entry], after, entry.key);
    WithoutJoin(before, [entry], entry.key);
    WithoutAbsent(before, entry.key);
    WithoutAbsent(after, entry.key);
    WithoutItself(entry);
    hide Without;
    assert before + [] == before;
    WithoutIsRest(all, entry.key);
  }

  lemma WithoutItself<T>(entry: Entry<T>)
    ensures Without([entry], entry.key) == []
  {
  }

  lemma {:induction false} FindJoin<T>(a: seq<Entry<T>>, b: seq<Entry<T>>, key: string)
    ensures Find(a + b, key) == if Find(a, key).Some? then Find(a, key) else Find(b, key)
  {
    if a == [] {
      assert a + b == b;
    } else {
      FindJoin(a[1..], b, key);
      assert (a + b)[1..] == a[1..] + b;
    }
  }

  // ---------- last-put order ----------

  /** One past the last put of a key in a log of puts; 0 when there was none. */
  function LastPut(puts: seq<string>, key: string): nat {
    if puts == [] then 0 else if puts[|puts| - 1] == key then |puts| else LastPut(puts[..|puts| - 1], key)
  }

  lemma {:induction false} LastPutWithin(puts: seq<string>, key: string)
    ensures LastPut(puts, key) <= |puts|
  {
    if puts != [] {
      LastPutWithin(puts[..|puts| - 1], key);
    }
  }

  predicate Colder<T>(a: Entry<T>, b: Entry<T>, puts: seq<string>) {
    0 < LastPut(puts, a.key) < LastPut(puts, b.key)
  }

  predicate WasPut<T>(a: Entry<T>, puts: seq<string>) {
    0 < LastPut(puts, a.key)
  }

  /** From the least to the most recently put. */
  ghost predicate InPutOrder<T>(entries: seq<Entry<T>>, puts: seq<string>) {
    && (forall i | 0 <= i < |entries| :: WasPut(entries[i], puts))
    && (forall i, j | 0 <= i < j < |entries| :: Colder(entries[i], entries[j], puts))
  }

  ghost predicate IsSound<T>(entries: seq<Entry<T>>) {
    AreDistinct(entries) && |entries| <= MAX_KEYS
  }

  lemma {:induction false} WithoutKeepsOrder<T>(entries: seq<Entry<T>>, key: string, puts: seq<string>)
    requires InPutOrder(entries, puts)
    ensures InPutOrder(Without(entries, key), puts)
  {
    if entries != [] {
      TailInOrder(entries, puts);
      WithoutKeepsOrder(entries[1..], key, puts);
      WithoutIsRest(entries[1..], key);
      if entries[0].key != key {
        PutColder(entries[0], Without(entries[1..], key), entries[1..], puts);
      }
    }
  }

  lemma TailInOrder<T>(entries: seq<Entry<T>>, puts: seq<string>)
    requires InPutOrder(entries, puts) && entries != []
    ensures InPutOrder(entries[1..], puts)
    ensures forall i | 0 <= i < |entries| - 1 :: Colder(entries[0], entries[1..][i], puts)
  {
  }

  lemma PutColder<T>(first: Entry<T>, rest: seq<Entry<T>>, among: seq<Entry<T>>, puts: seq<string>)
    requires InPutOrder(rest, puts) && WasPut(first, puts)
    requires forall i | 0 <= i < |among| :: Colder(first, among[i], puts)
    requires forall i | 0 <= i < |rest| :: rest[i] in among
    ensures InPutOrder([first] + rest, puts)
  {
    forall i | 0 <= i < |rest|
      ensures Colder(first, rest[i], puts)
    {
      var j :| 0 <= j < |among| && among[j] == rest[i];
    }
  }

  lemma {:induction false} InspectedIsRest<T>(entries: seq<Entry<T>>, n: nat, isStale: T -> bool)
    ensures |Inspected(entries, n, isStale)| <= |entries|
    ensures forall i | 0 <= i < |Inspected(entries, n, isStale)| :: Inspected(entries, n, isStale)[i] in entries
    ensures AreDistinct(entries) ==> AreDistinct(Inspected(entries, n, isStale))
  {
    if n > 0 && entries != [] {
      InspectedIsRest(entries[1..], n - 1, isStale);
      var rest := Inspected(entries[1..], n - 1, isStale);
      assert AreDistinct(entries) ==> AreDistinct(entries[1..]);
      if AreDistinct(entries) {
        forall i | 0 <= i < |rest|
          ensures rest[i].key != entries[0].key
        {
          var j :| 0 <= j < |entries[1..]| && entries[1..][j] == rest[i];
        }
      }
    }
  }

  lemma {:induction false} InspectedKeepsOrder<T>(entries: seq<Entry<T>>, n: nat, isStale: T -> bool, puts: seq<string>)
    requires InPutOrder(entries, puts)
    ensures InPutOrder(Inspected(entries, n, isStale), puts)
  {
    if n > 0 && entries != [] {
      TailInOrder(entries, puts);
      InspectedKeepsOrder(entries[1..], n - 1, isStale, puts);
      InspectedIsRest(entries[1..], n - 1, isStale);
      if !isStale(entries[0].value) {
        PutColder(entries[0], Inspected(entries[1..], n - 1, isStale), entries[1..], puts);
      }
    }
  }

  /** A new put is the warmest of all and leaves the order of the others. */
  lemma PutKeepsOrder<T>(rest: seq<Entry<T>>, key: string, value: T, puts: seq<string>)
    requires InPutOrder(rest, puts) && forall i | 0 <= i < |rest| :: rest[i].key != key
    ensures InPutOrder(rest + [Entry(key, value)], puts + [key])
  {
    var now, all := puts + [key], rest + [Entry(key, value)];
    assert now[..|puts|] == puts && LastPut(now, key) == |puts| + 1;
    forall i | 0 <= i < |rest|
      ensures WasPut(rest[i], now) && LastPut(now, rest[i].key) == LastPut(puts, rest[i].key) <= |puts|
    {
      assert WasPut(rest[i], puts);
      LastPutWithin(puts, rest[i].key);
    }
    forall i, j | 0 <= i < j < |all|
      ensures Colder(all[i], all[j], now)
    {
      if j < |rest| {
        assert Colder(rest[i], rest[j], puts);
      }
    }
  }

  lemma AfterIsSound<T>(entries: seq<Entry<T>>, key: string, value: T)
    requires IsSound(entries)
    ensures IsSound(After(entries, key, value))
    ensures forall k | k in KeysOf(After(entries, key, value)) :: k == key || k in KeysOf(entries)
  {
    WithoutIsRest(entries, key);
    var rest, after := Without(entries, key), After(entries, key, value);
    forall i | 0 <= i < |after| - 1
      ensures after[i] in rest && after[i].key in KeysOf(entries)
    {
      var j :| 0 <= j < |rest| && rest[j] == after[i];
      assert rest[j] in entries;
    }
  }

  lemma AfterInOrder<T>(entries: seq<Entry<T>>, key: string, value: T, puts: seq<string>)
    requires InPutOrder(entries, puts)
    ensures InPutOrder(After(entries, key, value), puts + [key])
  {
    hide InPutOrder, AreDistinct;
    WithoutIsRest(entries, key);
    WithoutKeepsOrder(entries, key, puts);
    var rest := Without(entries, key);
    var kept := if |rest| < MAX_KEYS then rest else rest[|rest| - MAX_KEYS + 1..];
    if |rest| >= MAX_KEYS {
      SuffixInOrder(rest, |rest| - MAX_KEYS + 1, puts);
    }
    PutKeepsOrder(kept, key, value, puts);
  }

  lemma SuffixInOrder<T>(entries: seq<Entry<T>>, n: nat, puts: seq<string>)
    requires InPutOrder(entries, puts) && n <= |entries|
    ensures InPutOrder(entries[n..], puts)
  {
  }

  /** How many of the coldest entries a put evicts. */
  function Evicted<T>(rest: seq<Entry<T>>): nat {
    if |rest| < MAX_KEYS then 0 else |rest| - MAX_KEYS + 1
  }

  lemma AfterIsKept<T>(entries: seq<Entry<T>>, key: string, value: T)
    ensures var rest, after := Without(entries, key), After(entries, key, value);
            && |after| == |rest| - Evicted(rest) + 1 && after[|after| - 1] == Entry(key, value)
            && forall m | 0 <= m < |after| - 1 :: after[m] == rest[m + Evicted(rest)]
  {
  }

  /** What a put evicts is one key at most, from a full map, and the least recently put of all. */
  lemma {:induction false} EvictsTheColdest<T>(entries: seq<Entry<T>>, key: string, value: T, puts: seq<string>,
                                               lost: Entry<T>)
    requires IsSound(entries) && InPutOrder(entries, puts)
    requires lost in entries && lost.key != key && Find(After(entries, key, value), lost.key).None?
    ensures |Without(entries, key)| == MAX_KEYS && lost == Without(entries, key)[0]
    ensures var after := After(entries, key, value);
            forall m | 0 <= m < |after| && after[m].key != key :: LastPut(puts, lost.key) < LastPut(puts, after[m].key)
  {
    hide InPutOrder, AreDistinct, LastPut, Without, After, KeysOf, Find;
    var rest, after := Without(entries, key), After(entries, key, value);
    WithoutIsRest(entries, key);
    AfterIsKept(entries, key, value);
    var j := SurvivesDeletion(entries, key, lost);
    if Evicted(rest) <= j {
      assert after[j - Evicted(rest)] == rest[j];
      HasKey(after, j - Evicted(rest));
      assert false;
    }
    WithoutKeepsOrder(entries, key, puts);
    FirstIsColdest(rest, puts);
  }

  lemma SurvivesDeletion<T>(entries: seq<Entry<T>>, key: string, kept: Entry<T>) returns (j: nat)
    requires AreDistinct(entries) && kept in entries && kept.key != key
    ensures j < |Without(entries, key)| && Without(entries, key)[j] == kept
  {
    var i :| 0 <= i < |entries| && entries[i] == kept;
    FoundAt(entries, i);
    FindWithout(entries, key, kept.key);
    j := FindIn(Without(entries, key), kept.key);
  }

  lemma FirstIsColdest<T>(entries: seq<Entry<T>>, puts: seq<string>)
    requires InPutOrder(entries, puts)
    ensures forall m | 0 < m < |entries| :: LastPut(puts, entries[0].key) < LastPut(puts, entries[m].key)
  {
    assert forall m | 0 < m < |entries| :: Colder(entries[0], entries[m], puts);
  }

  // ---------- the class ----------

  class RecentMap<T(!new)> {
    var entries: seq<Entry<T>>
    ghost var puts: seq<string>

    /** At most `MAX_KEYS` keys, each once, in last-put order. */
    ghost predicate Valid()
      reads this
    {
      IsSound(entries) && InPutOrder(entries, puts)
    }

    constructor ()
      ensures Valid() && entries == [] && puts == []
    {
      entries := [];
      puts := [];
    }

    function Get(key: string): (value: Option<T>)
      reads this
      ensures value == Find(entries, key)
    {
      Find(entries, key)
    }

    method Put(key: string, value: T)
      requires Valid()
      modifies this
      ensures Valid() && entries == After(old(entries), key, value) && puts == old(puts) + [key]
      ensures |entries| <= 10_000
    {
      hide InPutOrder, After, Without;
      entries := Without(entries, key);
      ghost var rest := entries;
      var excess := |entries| - MAX_KEYS + 1;
      ghost var gone := 0;
      FrontIsSound(old(entries), key);
      while entries != [] && excess > 0
        invariant 0 <= gone <= |rest| && entries == rest[gone..] && AreDistinct(rest) && puts == old(puts)
        invariant gone + excess == |rest| - MAX_KEYS + 1 && (excess >= 0 || gone == 0)
        decreases excess
      {
        var coldest := entries[0].key;
        excess := excess - 1;
        DropFirst(rest, gone);
        entries := Without(entries, coldest);
        gone := gone + 1;
      }
      entries := entries + [Entry(key, value)];
      puts := puts + [key];
      PutDone(old(entries), key, value, rest, gone);
      AfterIsSound(old(entries), key, value);
      AfterInOrder(old(entries), key, value, old(puts));
    }

    method ForgetCold(isStale: T -> bool)
      requires Valid()
      modifies this
      ensures Valid() && entries == Inspected(old(entries), 4, isStale) && puts == old(puts)
    {
      hide IsSound, InPutOrder, Without, Inspected, AreDistinct;
      var snapshot := entries;
      var i := 0;
      var inspected := 0;
      ghost var kept: seq<Entry<T>> := [];
      ForgetBegins(snapshot, isStale);
      while i < |snapshot|
        invariant 0 <= i <= |snapshot| && inspected == i <= COLD_BATCH && puts == old(puts)
        invariant entries == kept + snapshot[i..] && AreDistinct(entries)
        invariant kept + Inspected(snapshot[i..], COLD_BATCH - i, isStale) == Inspected(snapshot, COLD_BATCH, isStale)
      {
        if inspected >= COLD_BATCH {
          break;
        }
        inspected := inspected + 1;
        ForgetTurn(kept, snapshot, i, isStale);
        if isStale(snapshot[i].value) {
          entries := Without(entries, snapshot[i].key);
        } else {
          kept := kept + [snapshot[i]];
        }
        i := i + 1;
      }
      ForgetEnds(snapshot[i..], COLD_BATCH - i, isStale);
      InspectedIsSound(snapshot, isStale);
      InspectedKeepsOrder(snapshot, COLD_BATCH, isStale, puts);
    }
  }

  lemma FrontIsSound<T>(entries: seq<Entry<T>>, key: string)
    requires IsSound(entries)
    ensures AreDistinct(Without(entries, key)) && |Without(entries, key)| <= MAX_KEYS
  {
    WithoutIsRest(entries, key);
  }

  lemma DropFirst<T>(rest: seq<Entry<T>>, gone: nat)
    requires AreDistinct(rest) && gone < |rest|
    ensures Without(rest[gone..], rest[gone].key) == rest[gone + 1..]
  {
    assert rest[gone..] == [] + [rest[gone]] + rest[gone + 1..];
    WithoutOne([], rest[gone], rest[gone + 1..]);
    assert [] + rest[gone + 1..] == rest[gone + 1..];
  }

  lemma PutDone<T>(entries: seq<Entry<T>>, key: string, value: T, rest: seq<Entry<T>>, gone: nat)
    requires rest == Without(entries, key) && gone <= |rest| <= MAX_KEYS
    requires gone == (if |rest| < MAX_KEYS then 0 else |rest| - MAX_KEYS + 1)
    ensures rest[gone..] + [Entry(key, value)] == After(entries, key, value)
  {
  }

  lemma ForgetBegins<T>(snapshot: seq<Entry<T>>, isStale: T -> bool)
    requires IsSound(snapshot)
    ensures [] + snapshot[0..] == snapshot && AreDistinct(snapshot)
    ensures [] + Inspected(snapshot[0..], COLD_BATCH, isStale) == Inspected(snapshot, COLD_BATCH, isStale)
  {
    assert snapshot[0..] == snapshot;
  }

  lemma ForgetTurn<T>(kept: seq<Entry<T>>, snapshot: seq<Entry<T>>, i: nat, isStale: T -> bool)
    requires i < |snapshot| && i < COLD_BATCH && AreDistinct(kept + snapshot[i..])
    ensures var next := if isStale(snapshot[i].value) then kept else kept + [snapshot[i]];
            && next + Inspected(snapshot[i + 1..], COLD_BATCH - (i + 1), isStale)
               == kept + Inspected(snapshot[i..], COLD_BATCH - i, isStale)
            && kept + [snapshot[i]] + snapshot[i + 1..] == kept + snapshot[i..]
    ensures Without(kept + snapshot[i..], snapshot[i].key) == kept + snapshot[i + 1..]
    ensures AreDistinct(kept + snapshot[i + 1..])
  {
    assert snapshot[i..] == [snapshot[i]] + snapshot[i + 1..];
    assert kept + [snapshot[i]] + snapshot[i + 1..] == kept + snapshot[i..];
    WithoutOne(kept, snapshot[i], snapshot[i + 1..]);
  }

  lemma ForgetEnds<T>(rest: seq<Entry<T>>, n: nat, isStale: T -> bool)
    requires n == 0 || rest == []
    ensures Inspected(rest, n, isStale) == rest
  {
  }

  lemma InspectedIsSound<T>(entries: seq<Entry<T>>, isStale: T -> bool)
    requires IsSound(entries)
    ensures IsSound(Inspected(entries, COLD_BATCH, isStale))
    ensures KeysOf(Inspected(entries, COLD_BATCH, isStale)) <= KeysOf(entries)
  {
    InspectedIsRest(entries, COLD_BATCH, isStale);
    var left := Inspected(entries, COLD_BATCH, isStale);
    forall i | 0 <= i < |left|
      ensures left[i].key in KeysOf(entries)
    {
      var j :| 0 <= j < |entries| && entries[j] == left[i];
    }
  }

  // ---------- limiters over the map ----------

  datatype Decision = Allowed | Refused(retryAfterSeconds: nat)

  datatype Call = Call(key: string, at: int)

  /** What distinguishes one limiter from another: when a value may be forgotten, and what a call does to its value. */
  datatype Rule<!T> = Rule(isStale: (T, int) -> bool, decide: (Option<T>, Call) -> (Decision, T))

  /** One call as the limiters make it: forget a few, decide, put. */
  function Serve<T(!new)>(rule: Rule<T>, entries: seq<Entry<T>>, call: Call): (seq<Entry<T>>, Decision) {
    var left := Inspected(entries, COLD_BATCH, v => rule.isStale(v, call.at));
    var (decision, value) := rule.decide(Find(left, call.key), call);
    (After(left, call.key, value), decision)
  }

  function Decisions<T(!new)>(rule: Rule<T>, entries: seq<Entry<T>>, calls: seq<Call>): (r: seq<Decision>)
    ensures |r| == |calls|
    decreases |calls|
  {
    if calls == [] then []
    else
      var (next, decision) := Serve(rule, entries, calls[0]);
      [decision] + Decisions(rule, next, calls[1..])
  }

  function Recall<T>(memory: map<string, T>, key: string): Option<T> {
    if key in memory then Some(memory[key]) else None
  }

  /** The same limiter over a map that never forgets a key. */
  function Remember<T(!new)>(rule: Rule<T>, memory: map<string, T>, call: Call): (map<string, T>, Decision) {
    var (decision, value) := rule.decide(Recall(memory, call.key), call);
    (memory[call.key := value], decision)
  }

  function Remembering<T(!new)>(rule: Rule<T>, memory: map<string, T>, calls: seq<Call>): (r: seq<Decision>)
    ensures |r| == |calls|
    decreases |calls|
  {
    if calls == [] then []
    else
      var (next, decision) := Remember(rule, memory, calls[0]);
      [decision] + Remembering(rule, next, calls[1..])
  }

  predicate IsOrdered(calls: seq<Call>) {
    forall i, j | 0 <= i < j < |calls| :: calls[i].at <= calls[j].at
  }

  predicate StartsAfter(calls: seq<Call>, now: int) {
    forall i | 0 <= i < |calls| :: now <= calls[i].at
  }

  ghost predicate StaleStays<T(!new)>(rule: Rule<T>) {
    forall v, t, u | rule.isStale(v, t) && t <= u :: rule.isStale(v, u)
  }

  ghost predicate StaleIsAsGoodAsNone<T(!new)>(rule: Rule<T>, suits: (T, string) -> bool) {
    forall v, call: Call | rule.isStale(v, call.at) && suits(v, call.key) ::
      rule.decide(Some(v), call) == rule.decide(None, call)
  }

  ghost predicate KeepsSuiting<T(!new)>(rule: Rule<T>, suits: (T, string) -> bool) {
    && (forall call :: suits(rule.decide(None, call).1, call.key))
    && (forall v, call: Call | suits(v, call.key) :: suits(rule.decide(Some(v), call).1, call.key))
  }

  /** Stale values stay stale, and are as good as none to every later call they can meet. */
  ghost predicate IsLawful<T(!new)>(rule: Rule<T>, suits: (T, string) -> bool) {
    StaleStays(rule) && StaleIsAsGoodAsNone(rule, suits) && KeepsSuiting(rule, suits)
  }

  /** What was forgotten had gone stale; everything else is as remembered. */
  ghost predicate AgreesOn<T(!new)>(rule: Rule<T>, entries: seq<Entry<T>>, memory: map<string, T>, now: int,
                                            key: string) {
    var known := Recall(memory, key);
    match Find(entries, key)
    case Some(v) => known.Some? && known.value == v
    case None => known.Some? ==> rule.isStale(known.value, now)
  }

  ghost predicate Agrees<T(!new)>(rule: Rule<T>, suits: (T, string) -> bool, entries: seq<Entry<T>>,
                                  memory: map<string, T>, now: int) {
    && (forall key :: AgreesOn(rule, entries, memory, now, key))
    && (forall key | key in memory :: suits(memory[key], key))
  }

  lemma {:induction false} FindInspected<T>(entries: seq<Entry<T>>, n: nat, isStale: T -> bool, key: string)
    requires AreDistinct(entries)
    ensures var was, now := Find(entries, key), Find(Inspected(entries, n, isStale), key);
            now == was || (now.None? && was.Some? && isStale(was.value))
  {
    if n > 0 && entries != [] {
      TailDistinct(entries);
      FindInspected(entries[1..], n - 1, isStale, key);
      hide AreDistinct;
      var rest := Inspected(entries[1..], n - 1, isStale);
      if isStale(entries[0].value) {
        assert Inspected(entries, n, isStale) == [] + rest == rest;
      } else {
        FindFirst(entries[0], rest, key);
      }
    }
  }

  lemma FindFirst<T>(first: Entry<T>, rest: seq<Entry<T>>, key: string)
    ensures Find([first] + rest, key) == if first.key == key then Some(first.value) else Find(rest, key)
  {
    Prepend(first, rest);
  }

  lemma TailDistinct<T>(entries: seq<Entry<T>>)
    requires AreDistinct(entries) && entries != []
    ensures AreDistinct(entries[1..]) && Find(entries[1..], entries[0].key).None?
  {
    assert forall i | 0 <= i < |entries| - 1 :: entries[1..][i] == entries[i + 1];
    FindIffKey(entries[1..], entries[0].key);
  }

  /** With room for the key, a put changes its own value and nothing else. */
  lemma FindAfter<T>(entries: seq<Entry<T>>, key: string, value: T, other: string)
    requires IsSound(entries) && |Without(entries, key)| < MAX_KEYS
    ensures Find(After(entries, key, value), other) == if other == key then Some(value) else Find(entries, other)
  {
    FindWithout(entries, key, other);
    FindJoin(Without(entries, key), [Entry(key, value)], other);
    assert [Entry(key, value)][1..] == [];
  }

  lemma HasRoom<T>(entries: seq<Entry<T>>, key: string, universe: set<string>)
    requires IsSound(entries) && KeysOf(entries) <= universe && key in universe && |universe| <= MAX_KEYS
    ensures |Without(entries, key)| < MAX_KEYS
  {
    var rest := Without(entries, key);
    WithoutIsRest(entries, key);
    DistinctCount(rest);
    forall k | k in KeysOf(rest)
      ensures k in universe - {key}
    {
      var i :| 0 <= i < |rest| && rest[i].key == k;
      var j :| 0 <= j < |entries| && entries[j] == rest[i];
      assert entries[j].key in KeysOf(entries);
    }
    Smaller(KeysOf(rest), universe - {key});
  }

  lemma {:induction false} Smaller(a: set<string>, b: set<string>)
    requires a <= b
    ensures |a| <= |b|
  {
    if a != {} {
      var x :| x in a;
      Smaller(a - {x}, b - {x});
    }
  }

  lemma {:induction false} ServeAgrees<T(!new)>(rule: Rule<T>, suits: (T, string) -> bool, entries: seq<Entry<T>>,
                             memory: map<string, T>, now: int, call: Call, universe: set<string>)
    requires IsLawful(rule, suits) && IsSound(entries) && Agrees(rule, suits, entries, memory, now) && now <= call.at
    requires KeysOf(entries) <= universe && call.key in universe && |universe| <= MAX_KEYS
    ensures var (next, decision) := Serve(rule, entries, call);
            var (recalled, same) := Remember(rule, memory, call);
            && decision == same && IsSound(next) && KeysOf(next) <= universe
            && Agrees(rule, suits, next, recalled, call.at)
  {
    var isStale := (v: T) => rule.isStale(v, call.at);
    var left := Inspected(entries, COLD_BATCH, isStale);
    InspectedIsSound(entries, isStale);
    forall key
      ensures AgreesOn(rule, left, memory, call.at, key)
    {
      assert AgreesOn(rule, entries, memory, now, key);
      FindInspected(entries, COLD_BATCH, isStale, key);
    }
    assert AgreesOn(rule, left, memory, call.at, call.key);
    var (decision, value) := rule.decide(Find(left, call.key), call);
    assert (decision, value) == rule.decide(Recall(memory, call.key), call);
    HasRoom(left, call.key, universe);
    AfterIsSound(left, call.key, value);
    var next := After(left, call.key, value);
    var recalled := memory[call.key := value];
    forall key
      ensures AgreesOn(rule, next, recalled, call.at, key)
    {
      assert AgreesOn(rule, left, memory, call.at, key);
      FindAfter(left, call.key, value, key);
    }
  }

  lemma {:induction false} ForgettingFrom<T(!new)>(
    rule: Rule<T>, suits: (T, string) -> bool, entries: seq<Entry<T>>, memory: map<string, T>, now: int,
    calls: seq<Call>, universe: set<string>)
    requires IsLawful(rule, suits) && IsSound(entries) && Agrees(rule, suits, entries, memory, now)
    requires KeysOf(entries) <= universe && |universe| <= MAX_KEYS
    requires IsOrdered(calls) && StartsAfter(calls, now)
    requires forall i | 0 <= i < |calls| :: calls[i].key in universe
    ensures Decisions(rule, entries, calls) == Remembering(rule, memory, calls)
    decreases |calls|
  {
    hide IsLawful, IsSound, Agrees, Serve, Remember, KeysOf;
    if calls != [] {
      ServeAgrees(rule, suits, entries, memory, now, calls[0], universe);
      var (next, decision) := Serve(rule, entries, calls[0]);
      var (recalled, same) := Remember(rule, memory, calls[0]);
      assert StartsAfter(calls[1..], calls[0].at);
      ForgettingFrom(rule, suits, next, recalled, calls[0].at, calls[1..], universe);
    }
  }

  /** Over at most `MAX_KEYS` keys and a clock that does not run back, forgetting changes no decision. */
  lemma {:induction false} ForgettingIsInvisible<T(!new)>(rule: Rule<T>, suits: (T, string) -> bool, calls: seq<Call>)
    requires IsLawful(rule, suits) && IsOrdered(calls)
    requires |set i | 0 <= i < |calls| :: calls[i].key| <= 10_000
    ensures Decisions(rule, [], calls) == Remembering(rule, map[], calls)
  {
    var start := if calls == [] then 0 else calls[0].at;
    ForgettingFrom(rule, suits, [], map[], start, calls, set i | 0 <= i < |calls| :: calls[i].key);
  }

  /** A run of the remembering limiter, cut anywhere. */
  function Recalled<T(!new)>(rule: Rule<T>, memory: map<string, T>, calls: seq<Call>): map<string, T>
    decreases |calls|
  {
    if calls == [] then memory else Recalled(rule, Remember(rule, memory, calls[0]).0, calls[1..])
  }

  lemma {:induction false} CutEnd<T(!new)>(rule: Rule<T>, memory: map<string, T>, calls: seq<Call>, j: nat)
    requires j <= |calls|
    ensures Remembering(rule, memory, calls)[..j] == Remembering(rule, memory, calls[..j])
    decreases j
  {
    if j > 0 {
      var (next, decision) := Remember(rule, memory, calls[0]);
      CutEnd(rule, next, calls[1..], j - 1);
      assert calls[..j][1..] == calls[1..][..j - 1];
    }
  }

  lemma {:induction false} CutStart<T(!new)>(rule: Rule<T>, memory: map<string, T>, calls: seq<Call>, i: nat)
    requires i <= |calls|
    ensures Remembering(rule, memory, calls)[i..] == Remembering(rule, Recalled(rule, memory, calls[..i]), calls[i..])
    decreases i
  {
    if i > 0 {
      var (next, decision) := Remember(rule, memory, calls[0]);
      CutStart(rule, next, calls[1..], i - 1);
      assert calls[..i][1..] == calls[1..][..i - 1] && calls[i..] == calls[1..][i - 1..];
    } else {
      assert calls[..0] == [] && calls[0..] == calls;
    }
  }

  lemma CutRun<T(!new)>(rule: Rule<T>, memory: map<string, T>, calls: seq<Call>, i: nat, j: nat)
    requires i <= j <= |calls|
    ensures Remembering(rule, memory, calls)[i..j]
            == Remembering(rule, Recalled(rule, memory, calls[..i]), calls[i..j])
  {
    CutEnd(rule, memory, calls, j);
    CutStart(rule, memory, calls[..j], i);
    assert calls[..j][..i] == calls[..i] && calls[..j][i..] == calls[i..j];
    assert Remembering(rule, memory, calls)[i..j] == Remembering(rule, memory, calls)[..j][i..];
  }
}
