/**
 * The `keybinds` registry: the id counter, the global key map `binds`, the
 * per-target key maps `targetBinds`, registration (`set`, `setOnce`), removal
 * (`remove`), dispatch (`invoke`) and the key-present guard of the two listeners.
 */
module Registry {
  import opened Wrappers
  import opened Keys
  import opened Binding
  import opened Dispatch

  /** A dictionary from key label to the ordered list of binds registered for it. */
  type BindMap = map<string, seq<Bind>>

  /** The list stored under `k`, or the empty list when there is none. */
  function Get(d: BindMap, k: string): (r: seq<Bind>) {
    if k in d then d[k] else []
  }

  /** The key labels `set(key, …)` stores a bind under. */
  function StoredUnder(key: string): (ks: set<string>)
    ensures StorageKey(key) in ks
    ensures Single(key) ==> ks == {LowerKey(key), UpperKey(key)}
    ensures !Single(key) ==> ks == {key}
  {
    if Single(key) then {LowerKey(key), UpperKey(key)} else {key}
  }

  /**
   * Every one-character label present comes with both its case forms. `set` relies on
   * this: it pushes to the upper-case list whenever the lower-case one exists.
   */
  ghost predicate CaseClosed(d: BindMap) {
    forall k {:trigger LowerKey(k)} :: k in d && Single(k) ==> LowerKey(k) in d && UpperKey(k) in d
  }

  /** One instance of `CaseClosed`. */
  lemma CaseClosedAt(d: BindMap, k: string)
    requires CaseClosed(d) && k in d && Single(k)
    ensures LowerKey(k) in d && UpperKey(k) in d
  {
    assert LowerKey(k) == LowerKey(k);
  }

  /** Every stored bind has an id below `n`. */
  ghost predicate IdsBelow(d: BindMap, n: nat) {
    forall k, x :: k in d && x in d[k] ==> x.id < n
  }

  /**
   * The dictionary update `set` performs: a one-character key is lower-cased, the bind
   * is pushed to (or starts) the list under that label and, for a one-character key,
   * then to (or starts) the list under its upper-case form.
   */
  function Insert(d: BindMap, key: string, b: Bind): (r: BindMap)
    requires CaseClosed(d)
    ensures r.Keys == d.Keys + StoredUnder(key)
  {
    var k := StorageKey(key);
    if k in d then
      var d1 := d[k := d[k] + [b]];
      if Single(k) then
        CaseForms(key);
        d1[UpperKey(k) := d1[UpperKey(k)] + [b]]
      else d1
    else
      var d1 := d[k := [b]];
      if Single(k) then
        CaseForms(key);
        d1[UpperKey(k) := [b]]
      else d1
  }

  /**
   * The list `set` leaves under label `k`: labels it does not store under are untouched;
   * the others get the bind appended once, or twice when a caseless one-character key
   * already had a list.
   */
  lemma {:induction false} InsertAt(d: BindMap, key: string, b: Bind, k: string)
    requires CaseClosed(d)
    requires k in d || k in StoredUnder(key)
    ensures k in Insert(d, key, b)
    ensures k !in StoredUnder(key) ==> Insert(d, key, b)[k] == d[k]
    ensures k in StoredUnder(key) ==>
      Insert(d, key, b)[k] == Get(d, k) + (if Single(key) && Caseless(key) && k in d then [b, b] else [b])
  {
    if Single(key) {
      CaseForms(key);
      var lo, up := LowerKey(key), UpperKey(key);
      assert StorageKey(key) == lo;
      if lo in d {
        CaseClosedAt(d, lo);
        var d1 := d[lo := d[lo] + [b]];
        assert Insert(d, key, b) == d1[up := d1[up] + [b]];
      } else {
        if up in d {
          CaseForms(up);
          CaseClosedAt(d, up);
          assert false;
        }
        var d1 := d[lo := [b]];
        assert Insert(d, key, b) == d1[up := [b]];
      }
    }
  }

  /**
   * `set` keeps the case-closed shape, adds exactly the labels the key is stored under,
   * only appends to existing lists (their entries keep their order), leaves every other
   * list alone, and stores nothing but the new bind.
   */
  lemma InsertShape(d: BindMap, key: string, b: Bind)
    requires CaseClosed(d)
    ensures var r := Insert(d, key, b);
      && CaseClosed(r)
      && r.Keys == d.Keys + StoredUnder(key)
      && (forall k :: k in d ==> d[k] <= r[k])
      && (forall k :: k in d && k !in StoredUnder(key) ==> r[k] == d[k])
      && (forall k, x :: k in r && x in r[k] ==> x == b || (k in d && x in d[k]))
  {
    var r := Insert(d, key, b);
    if Single(key) {
      CaseForms(key);
    }
    assert r.Keys == d.Keys + StoredUnder(key);
    forall k | k in d
      ensures d[k] <= r[k]
      ensures k !in StoredUnder(key) ==> r[k] == d[k]
    {
      InsertAt(d, key, b, k);
    }
    forall k, x | k in r && x in r[k]
      ensures x == b || (k in d && x in d[k])
    {
      InsertAt(d, key, b, k);
    }
    forall k | k in r && Single(k)
      ensures LowerKey(k) in r && UpperKey(k) in r
    {
      CaseForms(k);
      if k in d {
        CaseClosedAt(d, k);
      }
    }
  }

  /**
   * A key with case (a letter, or any label longer than one character): the same bind
   * object ends up once at the end of every list it is stored under.
   */
  lemma InsertAppendsOnce(d: BindMap, key: string, b: Bind, k: string)
    requires CaseClosed(d)
    requires k in StoredUnder(key)
    requires Single(key) ==> !Caseless(key)
    ensures Insert(d, key, b)[k] == Get(d, k) + [b]
  {
    if Single(key) {
      CaseForms(key);
      var up := UpperKey(key);
      if up in d {
        CaseForms(up);
        CaseClosedAt(d, up);
      }
    }
  }

  /**
   * Dispatch after `set`: an event for any label the bind is stored under runs what
   * ran before and then the new bind, once, if it is eligible.
   */
  lemma InsertThenDispatch(d: BindMap, key: string, b: Bind, e: KeyEvent)
    requires CaseClosed(d)
    requires e.key in StoredUnder(key)
    requires Single(key) ==> !Caseless(key)
    ensures Firings(Insert(d, key, b)[e.key], e) ==
      Firings(Get(d, e.key), e) + (if Eligible(b, e) then [FiringOf(b)] else [])
  {
    InsertAppendsOnce(d, key, b, e.key);
    FiringsAppend(Get(d, e.key), [b], e);
    assert [b][..0] == [];
  }

  /** The exceptions `remove` can throw: spreading a missing case list. */
  datatype RemoveError = SpreadOfUndefined

  /** What `remove` returns and the global dictionary it leaves. */
  datatype Removal = Removal(removed: bool, binds: BindMap)

  /**
   * The copy `remove` scans: for a one-character key the lower-case list followed by
   * the upper-case list (throwing when either is missing), otherwise the key's own list.
   */
  function Scanned(d: BindMap, key: string): (r: Result<seq<Bind>, RemoveError>)
    ensures r.Failure? <==> Single(key) && (LowerKey(key) !in d || UpperKey(key) !in d)
    ensures r.Success? && !Single(key) ==> r.value == Get(d, key)
    ensures r.Success? && Single(key) ==> r.value == d[LowerKey(key)] + d[UpperKey(key)]
  {
    if Single(key) then
      if LowerKey(key) in d && UpperKey(key) in d then Success(d[LowerKey(key)] + d[UpperKey(key)])
      else Failure(SpreadOfUndefined)
    else Success(Get(d, key))
  }

  /** `array.splice(i, 1)`: removes the element at `i`, or nothing when `i` is past the end. */
  function Splice(s: seq<Bind>, i: nat): (r: seq<Bind>)
    ensures i < |s| ==> |r| == |s| - 1 && forall x :: x in r ==> x in s
    ensures i >= |s| ==> r == s
  {
    if i < |s| then s[..i] + s[i + 1..] else s
  }

  /**
   * The list under the bind's own key after `remove`'s loop has visited the first `n`
   * indices of the scanned copy, splicing the live list at each index whose entry has `id`.
   */
  function SpliceMatches(t: seq<Bind>, scanned: seq<Bind>, id: nat, n: nat): (r: seq<Bind>)
    requires n <= |scanned|
    ensures |r| <= |t|
    ensures forall x :: x in r ==> x in t
  {
    if n == 0 then t
    else
      var p := SpliceMatches(t, scanned, id, n - 1);
      if scanned[n - 1].id == id then Splice(p, n - 1) else p
  }

  /** How many of the first `n` entries of `s` have `id`: the loop's `removed` counter. */
  function CountId(s: seq<Bind>, id: nat, n: nat): (r: nat)
    requires n <= |s|
    ensures r <= n
  {
    if n == 0 then 0
    else CountId(s, id, n - 1) + (if s[n - 1].id == id then 1 else 0)
  }

  /** The counter is positive exactly when some visited entry has the id. */
  lemma {:induction false} CountIdPositive(s: seq<Bind>, id: nat, n: nat)
    requires n <= |s|
    ensures CountId(s, id, n) > 0 <==> exists i :: 0 <= i < n && s[i].id == id
  {
    if n > 0 {
      CountIdPositive(s, id, n - 1);
    }
  }

  /** Where `remove`'s loop over a live list ends: the list left and how many entries it spliced. */
  datatype Scan = Scan(rest: seq<Bind>, count: nat)

  /**
   * `remove`'s loop for a key longer than one character, where the list scanned is the
   * live list itself: from index `i`, each entry with `id` is spliced out and the index
   * still advances, so the entry that moved into its place is not looked at.
   */
  function LiveScan(t: seq<Bind>, id: nat, i: nat): (r: Scan)
    ensures |r.rest| <= |t|
    ensures forall x :: x in r.rest ==> x in t
    decreases |t| - i
  {
    if i >= |t| then Scan(t, 0)
    else if t[i].id == id then
      var r := LiveScan(Splice(t, i), id, i + 1);
      Scan(r.rest, r.count + 1)
    else LiveScan(t, id, i + 1)
  }

  /** The live scan counts something exactly when an entry from `i` on has the id. */
  lemma {:induction false} LiveScanCountPositive(t: seq<Bind>, id: nat, i: nat)
    ensures LiveScan(t, id, i).count > 0 <==> exists j :: i <= j < |t| && t[j].id == id
    decreases |t| - i
  {
    if i < |t| && t[i].id != id {
      LiveScanCountPositive(t, id, i + 1);
    }
  }

  /** A live scan that meets no entry with the id changes nothing. */
  lemma {:induction false} LiveScanNone(t: seq<Bind>, id: nat, i: nat)
    requires forall j :: i <= j < |t| ==> t[j].id != id
    ensures LiveScan(t, id, i) == Scan(t, 0)
    decreases |t| - i
  {
    if i < |t| {
      LiveScanNone(t, id, i + 1);
    }
  }

  /** A live scan over a list holding the id once, at `j`, splices exactly that entry. */
  lemma {:induction false} LiveScanUnique(t: seq<Bind>, id: nat, j: nat, i: nat)
    requires i <= j < |t| && t[j].id == id
    requires forall k :: 0 <= k < |t| && k != j ==> t[k].id != id
    ensures LiveScan(t, id, i) == Scan(t[..j] + t[j + 1..], 1)
    decreases j - i
  {
    if i == j {
      var u := Splice(t, j);
      forall k | j + 1 <= k < |u|
        ensures u[k].id != id
      {
        assert u[k] == t[k + 1];
      }
      LiveScanNone(u, id, j + 1);
    } else {
      LiveScanUnique(t, id, j, i + 1);
    }
  }

  /**
   * `remove(bind)` on the global dictionary `d`, as written: a one-character key scans a
   * copy of both case lists and splices the list under the bind's own spelling at the
   * copy's indices; a longer key scans and splices its live list.
   */
  function RemoveOutcome(d: BindMap, b: Bind): (r: Result<Removal, RemoveError>)
    ensures r.Failure? <==> Scanned(d, b.key).Failure?
    ensures r.Success? ==> r.value.binds.Keys == d.Keys
    ensures r.Success? ==> forall k :: k in d && k != b.key ==> r.value.binds[k] == d[k]
    ensures r.Success? ==> forall k, x :: k in d && x in r.value.binds[k] ==> x in d[k]
  {
    match Scanned(d, b.key)
    case Failure(err) => Failure(err)
    case Success(s) =>
      if |s| == 0 then Success(Removal(false, d))
      else if Single(b.key) then
        assert b.key in d by {
          CaseForms(b.key);
        }
        Success(Removal(CountId(s, b.id, |s|) > 0, d[b.key := SpliceMatches(d[b.key], s, b.id, |s|)]))
      else
        var scan := LiveScan(d[b.key], b.id, 0);
        Success(Removal(scan.count > 0, d[b.key := scan.rest]))
  }

  /**
   * `remove` returns false when the scanned list is empty or missing, and otherwise
   * true exactly when some entry of it has the bind's id.
   */
  lemma RemoveReportsPresence(d: BindMap, b: Bind)
    requires Scanned(d, b.key).Success?
    ensures RemoveOutcome(d, b).Success?
    ensures var s := Scanned(d, b.key).value;
      RemoveOutcome(d, b).value.removed <==> exists i :: 0 <= i < |s| && s[i].id == b.id
    ensures Scanned(d, b.key).value == [] ==> RemoveOutcome(d, b).value == Removal(false, d)
  {
    var s := Scanned(d, b.key).value;
    if Single(b.key) {
      CountIdPositive(s, b.id, |s|);
    } else {
      LiveScanCountPositive(s, b.id, 0);
    }
  }

  /** Splicing at indices where the id does not occur leaves the list as it was. */
  lemma {:induction false} SpliceMatchesNone(t: seq<Bind>, id: nat, n: nat)
    requires n <= |t|
    requires forall i :: 0 <= i < n ==> t[i].id != id
    ensures SpliceMatches(t, t, id, n) == t
  {
    if n > 0 {
      SpliceMatchesNone(t, id, n - 1);
    }
  }

  /** When the id occurs once, at `j`, the loop splices exactly that entry out. */
  lemma {:induction false} SpliceMatchesUnique(t: seq<Bind>, id: nat, j: nat, n: nat)
    requires j < n <= |t|
    requires t[j].id == id
    requires forall i :: 0 <= i < |t| && i != j ==> t[i].id != id
    ensures SpliceMatches(t, t, id, n) == t[..j] + t[j + 1..]
  {
    if n == j + 1 {
      SpliceMatchesNone(t, id, j);
    } else {
      SpliceMatchesUnique(t, id, j, n - 1);
    }
  }

  /**
   * For a key longer than one character whose list holds the bind's id exactly once,
   * `remove` returns true and drops that one entry, leaving the rest in order.
   */
  lemma RemoveUniqueEntry(d: BindMap, b: Bind, j: nat)
    requires !Single(b.key) && b.key in d
    requires j < |d[b.key]| && d[b.key][j].id == b.id
    requires forall i :: 0 <= i < |d[b.key]| && i != j ==> d[b.key][i].id != b.id
    ensures RemoveOutcome(d, b).Success?
    ensures RemoveOutcome(d, b).value.removed
    ensures RemoveOutcome(d, b).value.binds == d[b.key := d[b.key][..j] + d[b.key][j + 1..]]
    ensures forall x :: x in RemoveOutcome(d, b).value.binds[b.key] ==> x.id != b.id
  {
    var t := d[b.key];
    RemoveReportsPresence(d, b);
    LiveScanUnique(t, b.id, j, 0);
    var r := t[..j] + t[j + 1..];
    forall x | x in r
      ensures x.id != b.id
    {
      var i :| 0 <= i < |r| && r[i] == x;
      if i < j {
        assert r[i] == t[i];
      } else {
        assert r[i] == t[i + 1];
      }
    }
  }

  /**
   * A key of one character beyond the Basic Multilingual Plane has JavaScript length 2,
   * so it takes the branches of a longer key: `set` pushes it once per call, and
   * `remove` of a bind on it with no list returns false instead of throwing.
   */
  lemma SurrogatePairKey(b1: Bind, b2: Bind, b: Bind)
    requires b.key == "\U{1F600}"
    ensures JsLength("\U{1F600}") == 2 && !Single("\U{1F600}")
    ensures Insert(Insert(map[], "\U{1F600}", b1), "\U{1F600}", b2) == map["\U{1F600}" := [b1, b2]]
    ensures RemoveOutcome(map[], b) == Success(Removal(false, map[]))
  {
    var k := "\U{1F600}";
    assert k[..0] == [];
    assert !Single(k) && StorageKey(k) == k;
    var d1 := Insert(map[], k, b1);
    assert d1 == map[k := [b1]];
    assert Insert(d1, k, b2) == d1[k := d1[k] + [b2]];
    assert [b1] + [b2] == [b1, b2];
  }

  /**
   * The pushes `set` performs on the chosen dictionary: lower-case a one-character key,
   * then push the bind to (or start) its list and, for a one-character key, the list
   * under the upper-case form.
   */
  method Push(dict: BindMap, key: string, b: Bind) returns (d: BindMap)
    requires CaseClosed(dict)
    ensures d == Insert(dict, key, b)
  {
    d := dict;
    var k := key;
    if Single(k) {
      k := LowerKey(k);
      CaseForms(key);
    }
    assert k == StorageKey(key);
    if k in d {
      d := d[k := d[k] + [b]];
      if Single(k) {
        d := d[UpperKey(k) := d[UpperKey(k)] + [b]];
      }
    } else {
      d := d[k := [b]];
      if Single(k) {
        d := d[UpperKey(k) := [b]];
      }
    }
  }

  /** A dictionary `set` can push to, all of whose binds were numbered before `n`. */
  ghost predicate DictValid(d: BindMap, n: nat) {
    CaseClosed(d) && IdsBelow(d, n)
  }

  /** The dictionary of target `t`, empty before its first bind. */
  function TargetDict(tb: map<TargetId, BindMap>, t: TargetId): (r: BindMap) {
    if t in tb then tb[t] else map[]
  }

  ghost predicate TargetsValid(tb: map<TargetId, BindMap>, n: nat) {
    forall t :: t in tb ==> DictValid(tb[t], n)
  }

  /** Every target dictionary is case-closed. */
  ghost predicate AllCaseClosed(tb: map<TargetId, BindMap>) {
    forall t :: t in tb ==> CaseClosed(tb[t])
  }

  /** Writing a key twice keeps the second value. */
  lemma UpdateTwice<K, V>(m: map<K, V>, k: K, x: V, y: V)
    ensures m[k := x][k := y] == m[k := y]
  {
  }

  /** Valid target dictionaries are case-closed. */
  lemma TargetsCaseClosed(tb: map<TargetId, BindMap>, n: nat)
    requires TargetsValid(tb, n)
    ensures AllCaseClosed(tb)
  {
    forall t | t in tb
      ensures CaseClosed(tb[t])
    {
      assert DictValid(tb[t], n);
    }
  }

  /** One listener was attached per target dictionary, and none twice. */
  ghost predicate ListenersMatch(tb: map<TargetId, BindMap>, ls: seq<TargetId>) {
    && (forall t :: t in tb <==> t in ls)
    && (forall i, j :: 0 <= i < j < |ls| ==> ls[i] != ls[j])
  }

  /** Inserting the bind numbered `n` keeps a dictionary valid for the incremented counter. */
  lemma DictValidInsert(d: BindMap, key: string, b: Bind, n: nat)
    requires DictValid(d, n) && b.id == n
    ensures DictValid(Insert(d, key, b), n + 1)
  {
    InsertShape(d, key, b);
  }

  /** Incrementing the counter keeps target dictionaries valid, and so does inserting into one. */
  lemma TargetsValidInsert(tb: map<TargetId, BindMap>, t: TargetId, key: string, b: Bind, n: nat)
    requires TargetsValid(tb, n) && b.id == n
    ensures TargetsValid(tb, n + 1)
    ensures TargetsValid(tb[t := Insert(TargetDict(tb, t), key, b)], n + 1)
  {
    forall u | u in tb
      ensures DictValid(tb[u], n + 1)
    {
      assert DictValid(tb[u], n);
    }
    DictValidInsert(TargetDict(tb, t), key, b, n);
  }

  /** Attaching a listener for a target seen for the first time keeps one listener per target. */
  lemma ListenersAttach(tb: map<TargetId, BindMap>, ls: seq<TargetId>, t: TargetId, x: BindMap)
    requires ListenersMatch(tb, ls)
    ensures t !in tb ==> ListenersMatch(tb[t := x], ls + [t])
    ensures t in tb ==> ListenersMatch(tb[t := x], ls)
  {
  }

  /**
   * Where a successful `set(key, options)` put bind `b`, taking the dictionaries and
   * listeners from their values before (`binds0`, …) to after (`binds1`, …): into the
   * global dictionary, or into its target's dictionary (created, with its listener
   * attached, the first time the target is seen), and nowhere else.
   */
  ghost predicate StoredIn(
    binds0: BindMap, targetBinds0: map<TargetId, BindMap>, listeners0: seq<TargetId>, key: string, b: Bind,
    binds1: BindMap, targetBinds1: map<TargetId, BindMap>, listeners1: seq<TargetId>)
  {
    match b.target
    case None =>
      && CaseClosed(binds0)
      && binds1 == Insert(binds0, key, b)
      && targetBinds1 == targetBinds0
      && listeners1 == listeners0
    case Some(t) =>
      && CaseClosed(TargetDict(targetBinds0, t))
      && binds1 == binds0
      && targetBinds1 == targetBinds0[t := Insert(TargetDict(targetBinds0, t), key, b)]
      && listeners1 == (if t in targetBinds0 then listeners0 else listeners0 + [t])
  }

  /** Storing the bind numbered `n` keeps the registry invariant for the incremented counter. */
  lemma StoreKeepsValid(
    binds0: BindMap, targetBinds0: map<TargetId, BindMap>, listeners0: seq<TargetId>, key: string, b: Bind,
    binds1: BindMap, targetBinds1: map<TargetId, BindMap>, listeners1: seq<TargetId>)
    requires DictValid(binds0, b.id) && TargetsValid(targetBinds0, b.id) && ListenersMatch(targetBinds0, listeners0)
    requires StoredIn(binds0, targetBinds0, listeners0, key, b, binds1, targetBinds1, listeners1)
    ensures DictValid(binds1, b.id + 1) && TargetsValid(targetBinds1, b.id + 1)
    ensures ListenersMatch(targetBinds1, listeners1)
  {
    match b.target
    case None =>
      DictValidInsert(binds0, key, b, b.id);
      TargetsValidInsert(targetBinds0, "", key, b, b.id);
    case Some(t) =>
      assert IdsBelow(binds0, b.id);
      TargetsValidInsert(targetBinds0, t, key, b, b.id);
      ListenersAttach(targetBinds0, listeners0, t, Insert(TargetDict(targetBinds0, t), key, b));
  }

  /** `remove` keeps a dictionary case-closed and stores no new bind. */
  lemma RemoveKeepsValid(d: BindMap, b: Bind, n: nat)
    requires DictValid(d, n) && RemoveOutcome(d, b).Success?
    ensures DictValid(RemoveOutcome(d, b).value.binds, n)
  {
    var r := RemoveOutcome(d, b).value.binds;
    forall k | k in r && Single(k)
      ensures LowerKey(k) in r && UpperKey(k) in r
    {
      CaseClosedAt(d, k);
    }
  }

  /** The exception `invoke` throws for a key with no list in the dictionary. */
  datatype InvokeError = UndefinedKeybind(key: string)

  /** The registry state: the module-level `index`, `binds` and `targetBinds`. */
  class Registry {
    /** The id the next bind receives. */
    var index: nat
    /** The global dictionary, served by the window listener. */
    var binds: BindMap
    /** One dictionary per target id, each served by that target's listener. */
    var targetBinds: map<TargetId, BindMap>
    /** The targets `attachListener` was called for, in order. */
    var listeners: seq<TargetId>
    /** Binds whose removal a one-shot wrapper deferred with `setTimeout`, oldest first. */
    var pending: seq<Bind>

    ghost predicate Valid()
      reads this
    {
      && DictValid(binds, index)
      && TargetsValid(targetBinds, index)
      && ListenersMatch(targetBinds, listeners)
    }

    /** The state at module load: empty dictionaries, counter at zero, no target listener yet. */
    constructor ()
      ensures Valid()
      ensures index == 0 && binds == map[] && targetBinds == map[] && listeners == [] && pending == []
    {
      index := 0;
      binds := map[];
      targetBinds := map[];
      listeners := [];
      pending := [];
    }

    /** The bind a successful `set(key, options)` built: the validated fields and the next id. */
    ghost predicate Numbered(index0: nat, key: string, options: OptionsArg, b: Bind)
      reads this, b
    {
      var v := Validate(MergeOptions(key, options));
      && v.Success?
      && b.id == index0 && index == index0 + 1
      && b.Fields() == v.value.(action := b.action)
    }

    /**
     * The target part of `set`: the dictionary of the bind's target (created, with the
     * target's listener attached, the first time that target id is seen) or the global one.
     */
    method ChooseDict(target: Option<TargetId>) returns (dict: BindMap)
      modifies this`targetBinds, this`listeners
      ensures target.None? ==> dict == binds && targetBinds == old(targetBinds) && listeners == old(listeners)
      ensures target.Some? ==>
        && dict == TargetDict(old(targetBinds), target.value)
        && targetBinds == old(targetBinds)[target.value := dict]
        && listeners == (if target.value in old(targetBinds) then old(listeners) else old(listeners) + [target.value])
    {
      if target.Some? {
        var t := target.value;
        if t !in targetBinds {
          targetBinds := targetBinds[t := map[]];
          listeners := listeners + [t];  // attachListener(target)
        }
        dict := targetBinds[t];
      } else {
        dict := binds;
      }
    }

    /**
     * The second half of `set`: choose the target's or the global dictionary and push
     * the bind under its key's storage labels.
     */
    method Store(key: string, b: Bind)
      requires CaseClosed(binds) && AllCaseClosed(targetBinds)
      modifies this`binds, this`targetBinds, this`listeners
      ensures StoredIn(old(binds), old(targetBinds), old(listeners), key, b, binds, targetBinds, listeners)
    {
      ghost var targetBinds0 := targetBinds;
      var dict := ChooseDict(b.target);
      dict := Push(dict, key, b);
      if b.target.Some? {
        var t := b.target.value;
        assert targetBinds == targetBinds0[t := TargetDict(targetBinds0, t)];
        UpdateTwice(targetBinds0, t, TargetDict(targetBinds0, t), dict);
        targetBinds := targetBinds[t := dict];
      } else {
        binds := dict;
      }
    }

    /** `keybinds.set(key, options)`. */
    method Set(key: string, options: OptionsArg) returns (r: Result<Bind, BindError>)
      requires Valid()
      modifies this
      ensures Valid() && pending == old(pending)
      ensures r.Success? <==> Validate(MergeOptions(key, options)).Success?
      ensures r.Failure? ==>
        && r.error == Validate(MergeOptions(key, options)).error
        && index == old(index) && binds == old(binds)
        && targetBinds == old(targetBinds) && listeners == old(listeners)
      ensures r.Success? ==>
        && fresh(r.value)
        && Numbered(old(index), key, options, r.value)
        && IdsBelow(old(binds), r.value.id) && TargetsValid(old(targetBinds), r.value.id)
        && StoredIn(old(binds), old(targetBinds), old(listeners), key, r.value, binds, targetBinds, listeners)
        && r.value.action == Call(MergeOptions(key, options).action.value)
    {
      var v := Validate(MergeOptions(key, options));
      if v.Failure? {
        return Failure(v.error);
      }
      var b := new Bind(index, v.value);
      TargetsCaseClosed(targetBinds, index);
      index := index + 1;
      Store(key, b);
      StoreKeepsValid(old(binds), old(targetBinds), old(listeners), key, b, binds, targetBinds, listeners);
      return Success(b);
    }

    /** `keybinds.remove(bind)`: looks only at the global dictionary. */
    method Remove(b: Bind) returns (r: Result<bool, RemoveError>)
      requires Valid()
      modifies this`binds
      ensures Valid()
      ensures r.Failure? <==> RemoveOutcome(old(binds), b).Failure?
      ensures r.Failure? ==> r.error == SpreadOfUndefined && binds == old(binds)
      ensures r.Success? ==>
        && r.value == RemoveOutcome(old(binds), b).value.removed
        && binds == RemoveOutcome(old(binds), b).value.binds
    {
      // A one-character key scans a copy of both case lists; a longer key its live list.
      var aliased := !Single(b.key);
      var scanned: seq<Bind>;
      if !aliased {
        var lo, up := LowerKey(b.key), UpperKey(b.key);
        if lo !in binds || up !in binds {
          return Failure(SpreadOfUndefined);
        }
        scanned := binds[lo] + binds[up];
        CaseForms(b.key);
      } else {
        scanned := Get(binds, b.key);
      }
      if |scanned| == 0 {
        return Success(false);
      }
      ghost var d0, t0 := binds, binds[b.key];
      var removed := 0;
      var i := 0;
      while i < (if aliased then |binds[b.key]| else |scanned|)
        invariant b.key in binds && binds == d0[b.key := binds[b.key]]
        invariant !aliased ==>
          && i <= |scanned|
          && removed == CountId(scanned, b.id, i)
          && binds[b.key] == SpliceMatches(t0, scanned, b.id, i)
        invariant aliased ==>
          && LiveScan(binds[b.key], b.id, i).rest == LiveScan(t0, b.id, 0).rest
          && removed + LiveScan(binds[b.key], b.id, i).count == LiveScan(t0, b.id, 0).count
        decreases (if aliased then |binds[b.key]| else |scanned|) - i
      {
        var entry := if aliased then binds[b.key][i] else scanned[i];
        if entry.id == b.id {
          UpdateTwice(d0, b.key, binds[b.key], Splice(binds[b.key], i));
          binds := binds[b.key := Splice(binds[b.key], i)];
          removed := removed + 1;
        }
        i := i + 1;
      }
      RemoveKeepsValid(d0, b, index);
      return Success(removed > 0);
    }

    /**
     * `keybinds.setOnce(key, options)`: `set`, then the bind's action is replaced by a
     * wrapper that runs the caller's callback and schedules the bind's removal.
     */
    method SetOnce(key: string, options: OptionsArg) returns (r: Result<Bind, BindError>)
      requires Valid()
      modifies this
      ensures Valid() && pending == old(pending)
      ensures r.Success? <==> Validate(MergeOptions(key, options)).Success?
      ensures r.Failure? ==>
        && r.error == Validate(MergeOptions(key, options)).error
        && index == old(index) && binds == old(binds)
        && targetBinds == old(targetBinds) && listeners == old(listeners)
      ensures r.Success? ==>
        && fresh(r.value)
        && Numbered(old(index), key, options, r.value)
        && IdsBelow(old(binds), r.value.id) && TargetsValid(old(targetBinds), r.value.id)
        && StoredIn(old(binds), old(targetBinds), old(listeners), key, r.value, binds, targetBinds, listeners)
        && r.value.action == CallThenRemove(MergeOptions(key, options).action.value)
    {
      r := Set(key, options);
      if r.Success? {
        var b := r.value;
        b.action := CallThenRemove(b.action.callback);
      }
    }

    /**
     * `keybinds.invoke(e, dict)`: with no dictionary given, the global one. Throws when
     * the event's key has no list; otherwise runs every enabled bind of the list whose
     * modifiers match, in list order, without stopping early. A one-shot bind that runs
     * queues its own removal.
     */
    method Invoke(e: KeyEvent, dict: Option<BindMap>) returns (r: Result<seq<Firing>, InvokeError>)
      modifies this`pending
      ensures var d := if dict.Some? then dict.value else binds;
        && (r.Failure? <==> e.key !in d)
        && (r.Failure? ==> r.error == UndefinedKeybind(e.key) && pending == old(pending))
        && (r.Success? ==>
          && r.value == Firings(d[e.key], e)
          && pending == old(pending) + OnceRemovals(d[e.key], e))
    {
      var d := if dict.Some? then dict.value else binds;
      if e.key !in d {
        return Failure(UndefinedKeybind(e.key));
      }
      var fired := Pass(d[e.key], e);
      return Success(fired);
    }

    /**
     * The loop of `invoke` over one list: skips disabled binds, runs every bind whose
     * modifiers match the event's and keeps going; a one-shot bind queues its removal.
     */
    method Pass(list: seq<Bind>, e: KeyEvent) returns (fired: seq<Firing>)
      modifies this`pending
      ensures fired == Firings(list, e)
      ensures pending == old(pending) + OnceRemovals(list, e)
    {
      fired := [];
      var timeouts := [];  // the removals the one-shot wrappers schedule during the pass
      for i := 0 to |list|
        invariant fired == Firings(list[..i], e)
        invariant timeouts == OnceRemovals(list[..i], e)
        invariant pending == old(pending)
      {
        var bind := list[i];
        PassStep(list, i, e);
        if !bind.isEnabled {
          continue;
        }
        if e.ctrlKey == bind.ctrl && e.shiftKey == bind.shift && e.altKey == bind.alt {
          // bind.action(e): a one-shot wrapper defers the bind's removal with setTimeout
          if bind.action.CallThenRemove? {
            timeouts := timeouts + [bind];
          }
          fired := fired + [Firing(bind.id, bind.action, bind.preventDefault, bind.stopPropagation)];
        }
      }
      assert list[..|list|] == list;
      pending := pending + timeouts;
    }

    /** The window's keydown listener: invokes the global dictionary only for a key it holds. */
    method WindowKeyDown(e: KeyEvent) returns (fired: seq<Firing>)
      modifies this`pending
      ensures e.key in binds ==>
        fired == Firings(binds[e.key], e) && pending == old(pending) + OnceRemovals(binds[e.key], e)
      ensures e.key !in binds ==> fired == [] && pending == old(pending)
    {
      fired := [];
      if e.key in binds {
        var r := Invoke(e, None);
        match r
        case Success(f) => fired := f;
      }
    }

    /**
     * The keydown listener `attachListener` installs on target `t`: invokes that target's
     * dictionary only for a key it holds.
     */
    method TargetKeyDown(t: TargetId, e: KeyEvent) returns (fired: seq<Firing>)
      requires Valid() && t in listeners
      modifies this`pending
      ensures t in targetBinds
      ensures e.key in targetBinds[t] ==>
        && fired == Firings(targetBinds[t][e.key], e)
        && pending == old(pending) + OnceRemovals(targetBinds[t][e.key], e)
      ensures e.key !in targetBinds[t] ==> fired == [] && pending == old(pending)
    {
      fired := [];
      var dict := targetBinds[t];
      if e.key in dict {
        var r := Invoke(e, Some(dict));
        match r
        case Success(f) => fired := f;
      }
    }

    /**
     * The oldest pending `setTimeout` callback of a one-shot bind: `remove(bind)`. `None`
     * when nothing is pending.
     */
    method RunNextTimeout() returns (r: Option<Result<bool, RemoveError>>)
      requires Valid()
      modifies this`pending, this`binds
      ensures Valid()
      ensures old(pending) == [] ==> r == None && pending == [] && binds == old(binds)
      ensures old(pending) != [] ==>
        && pending == old(pending)[1..]
        && r.Some?
        && var outcome := RemoveOutcome(old(binds), old(pending)[0]);
        && (r.value.Failure? <==> outcome.Failure?)
        && (outcome.Failure? ==> binds == old(binds))
        && (outcome.Success? ==> r.value.value == outcome.value.removed && binds == outcome.value.binds)
    {
      if pending == [] {
        return None;
      }
      var b := pending[0];
      pending := pending[1..];
      var removed := Remove(b);
      return Some(removed);
    }
  }
}
