/**
 * Two places where `set` and `remove` as written break the both-case indexing of
 * one-character keys, each shown on the as-written definitions, and the definitions
 * they evidently intend, with the intended property proved.
 */
module Findings {
  import opened Wrappers
  import opened Keys
  import opened Binding
  import opened Dispatch
  import opened Registry

  /** The case form of a one-character key other than its own spelling. */
  function OtherCase(k: string): (r: string)
    requires Single(k)
    ensures Single(r) && r in {LowerKey(k), UpperKey(k)}
    ensures !Caseless(k) ==> r != k
  {
    CaseForms(k);
    if k == LowerKey(k) then UpperKey(k) else LowerKey(k)
  }

  // ---------------------------------------------------------------------------
  // Finding: a caseless one-character key is pushed twice onto its own list.

  /**
   * As written: a second bind on a one-character key with no case (a digit, a space,
   * punctuation) is pushed onto the lower-case list and then onto the "upper-case"
   * list, which is the same list, so one event runs it twice.
   */
  lemma CaselessKeyFiresTwice(d: BindMap, key: string, b: Bind, e: KeyEvent)
    requires CaseClosed(d)
    requires Single(key) && Caseless(key) && LowerKey(key) in d
    requires e.key == key && Eligible(b, e)
    ensures e.key in Insert(d, key, b)
    ensures Firings(Insert(d, key, b)[e.key], e) == Firings(d[e.key], e) + [FiringOf(b), FiringOf(b)]
  {
    CaseForms(key);
    InsertAt(d, key, b, e.key);
    FiringsAppend(d[e.key], [b, b], e);
    assert [b, b][..1] == [b];
    assert [b][..0] == [];
  }

  /** A concrete instance: two binds on "1" leave the second one twice in the list. */
  lemma DigitKeyListed(b1: Bind, b2: Bind)
    ensures Insert(Insert(map[], "1", b1), "1", b2)["1"] == [b1, b2, b2]
  {
    var d1 := Insert(map[], "1", b1);
    assert StorageKey("1") == "1" && UpperKey("1") == "1";
    assert d1 == map["1" := [b1]];
    InsertShape(map[], "1", b1);
    InsertAt(d1, "1", b2, "1");
  }

  /**
   * Intended: push the bind once under each distinct label of the key, so the upper-case
   * push is skipped when it names the same list.
   */
  function InsertIntended(d: BindMap, key: string, b: Bind): (r: BindMap)
    ensures r.Keys == d.Keys + StoredUnder(key)
  {
    var k := StorageKey(key);
    var d1 := d[k := Get(d, k) + [b]];
    if Single(k) && UpperKey(k) != k then
      CaseForms(key);
      d1[UpperKey(k) := Get(d, UpperKey(k)) + [b]]
    else d1
  }

  /** The intended push appends the bind exactly once under every label the key is stored under. */
  lemma InsertIntendedAppendsOnce(d: BindMap, key: string, b: Bind, k: string)
    requires k in StoredUnder(key)
    ensures InsertIntended(d, key, b)[k] == Get(d, k) + [b]
  {
    if Single(key) {
      CaseForms(key);
    }
  }

  /** The intended push leaves every other label alone and keeps the case-closed shape. */
  lemma InsertIntendedShape(d: BindMap, key: string, b: Bind)
    requires CaseClosed(d)
    ensures CaseClosed(InsertIntended(d, key, b))
    ensures forall k :: k in d && k !in StoredUnder(key) ==> InsertIntended(d, key, b)[k] == d[k]
  {
    var r := InsertIntended(d, key, b);
    if Single(key) {
      CaseForms(key);
    }
    forall k | k in r && Single(k)
      ensures LowerKey(k) in r && UpperKey(k) in r
    {
      CaseForms(k);
      if k in d {
        CaseClosedAt(d, k);
      }
    }
  }

  /** The fix changes nothing for keys that have case or are longer than one character. */
  lemma InsertIntendedAgrees(d: BindMap, key: string, b: Bind)
    requires CaseClosed(d)
    requires Single(key) ==> !Caseless(key)
    ensures InsertIntended(d, key, b) == Insert(d, key, b)
  {
    var r, w := InsertIntended(d, key, b), Insert(d, key, b);
    InsertShape(d, key, b);
    forall k | k in r
      ensures k in w && r[k] == w[k]
    {
      if k in StoredUnder(key) {
        InsertIntendedAppendsOnce(d, key, b, k);
        InsertAppendsOnce(d, key, b, k);
      } else {
        InsertIntendedShape(d, key, b);
      }
    }
  }

  /**
   * Intended: an event on any label the key is stored under runs what ran before and
   * then the new bind once, for caseless keys too.
   */
  lemma InsertIntendedFiresOnce(d: BindMap, key: string, b: Bind, e: KeyEvent)
    requires e.key in StoredUnder(key)
    ensures Firings(InsertIntended(d, key, b)[e.key], e) ==
      Firings(Get(d, e.key), e) + (if Eligible(b, e) then [FiringOf(b)] else [])
  {
    InsertIntendedAppendsOnce(d, key, b, e.key);
    FiringsAppend(Get(d, e.key), [b], e);
    assert [b][..0] == [];
  }

  // ---------------------------------------------------------------------------
  // Finding: `remove` on a one-character key splices only the list under the bind's
  // own spelling, at indices taken from both lists.

  /** Splicing at indices at or past the live list's length changes nothing. */
  lemma {:induction false} SpliceMatchesPastEnd(t: seq<Bind>, s: seq<Bind>, id: nat, n: nat)
    requires |t| <= n <= |s|
    ensures SpliceMatches(t, s, id, n) == SpliceMatches(t, s, id, |t|)
  {
    if n > |t| {
      SpliceMatchesPastEnd(t, s, id, n - 1);
    }
  }

  /** The first `n` steps only read the first `n` entries of the scanned copy. */
  lemma {:induction false} SpliceMatchesPrefix(t: seq<Bind>, s: seq<Bind>, u: seq<Bind>, id: nat, n: nat)
    requires n <= |s| && n <= |u| && s[..n] == u[..n]
    ensures SpliceMatches(t, s, id, n) == SpliceMatches(t, u, id, n)
  {
    if n > 0 {
      assert s[..n - 1] == s[..n][..n - 1] && u[..n - 1] == u[..n][..n - 1];
      assert s[n - 1] == s[..n][n - 1] && u[n - 1] == u[..n][n - 1];
      SpliceMatchesPrefix(t, s, u, id, n - 1);
    }
  }

  /** The copy `L + L` spliced into `L`: only the first occurrence of the id is removed. */
  lemma DoubledCopySplice(t: seq<Bind>, id: nat, j: nat)
    requires j < |t| && t[j].id == id
    requires forall i :: 0 <= i < |t| && i != j ==> t[i].id != id
    ensures SpliceMatches(t, t + t, id, |t + t|) == t[..j] + t[j + 1..]
  {
    SpliceMatchesPastEnd(t, t + t, id, |t + t|);
    assert (t + t)[..|t|] == t[..|t|];
    SpliceMatchesPrefix(t, t + t, t, id, |t|);
    SpliceMatchesUnique(t, id, j, |t|);
  }

  /**
   * As written: removing a bind on a letter key, while the two case lists are as `set`
   * left them, drops it from the list under its own spelling only; the list under the
   * other case keeps it, and a second `remove` returns true again. An event reporting the
   * other spelling with the bind's own modifiers (for `set("a", f)`, an "A" typed with
   * Caps Lock and no Shift) still runs it from that list.
   */
  lemma RemoveLeavesOtherCase(d: BindMap, b: Bind, j: nat)
    requires Single(b.key) && !Caseless(b.key)
    requires b.key in d && LowerKey(b.key) in d && UpperKey(b.key) in d
    requires d[LowerKey(b.key)] == d[UpperKey(b.key)]
    requires j < |d[LowerKey(b.key)]| && d[LowerKey(b.key)][j] == b
    requires forall i :: 0 <= i < |d[LowerKey(b.key)]| && i != j ==> d[LowerKey(b.key)][i].id != b.id
    ensures RemoveOutcome(d, b).Success? && RemoveOutcome(d, b).value.removed
    ensures var d1 := RemoveOutcome(d, b).value.binds;
      && d1[b.key] == d[LowerKey(b.key)][..j] + d[LowerKey(b.key)][j + 1..]
      && d1[OtherCase(b.key)] == d[OtherCase(b.key)]
      && b in d1[OtherCase(b.key)]
    ensures var d1 := RemoveOutcome(d, b).value.binds;
      RemoveOutcome(d1, b).Success? && RemoveOutcome(d1, b).value.removed
    ensures var d1 := RemoveOutcome(d, b).value.binds;
      forall e: KeyEvent :: e.key == OtherCase(b.key) && Eligible(b, e) ==> FiringOf(b) in Firings(d1[e.key], e)
  {
    CaseForms(b.key);
    var t := d[b.key];
    var other := OtherCase(b.key);
    assert Scanned(d, b.key).value == t + t;
    assert (t + t)[j] == b;
    CountIdPositive(t + t, b.id, |t + t|);
    DoubledCopySplice(t, b.id, j);
    var d1 := RemoveOutcome(d, b).value.binds;
    assert d1[other] == t;
    var s1 := Scanned(d1, b.key).value;
    var k :| 0 <= k < |s1| && s1[k] == b by {
      if b.key == LowerKey(b.key) {
        assert s1[|d1[b.key]| + j] == b;
      } else {
        assert s1[j] == b;
      }
    }
    RemoveReportsPresence(d1, b);
    forall e: KeyEvent | e.key == other && Eligible(b, e)
      ensures FiringOf(b) in Firings(d1[e.key], e)
    {
      assert t[j] == b;
      FiringsExactlyEligible(t, e, FiringOf(b));
    }
  }

  /**
   * A concrete run: `set("a", f)` gives bind 0 and `set("A", g)` bind 1, both stored under
   * "a" and "A". Removing bind 0 leaves it under "A"; removing bind 1 then splices "A" at
   * the index where bind 1 sits in "a" — which takes bind 0 out of "A" — while bind 1 stays
   * stored under both labels. Both calls return true.
   */
  lemma RemoveTakesOtherBind(b0: Bind, b1: Bind)
    requires b0.id == 0 && b0.key == "a" && b1.id == 1 && b1.key == "A"
    ensures RemoveOutcome(map["a" := [b0, b1], "A" := [b0, b1]], b0) ==
      Success(Removal(true, map["a" := [b1], "A" := [b0, b1]]))
    ensures RemoveOutcome(map["a" := [b1], "A" := [b0, b1]], b1) ==
      Success(Removal(true, map["a" := [b1], "A" := [b1]]))
  {
    assert "a" != "A" by {
      assert "a"[0] != "A"[0];
    }
    assert LowerKey("a") == "a" && UpperKey("a") == "A";
    assert LowerKey("A") == "a" && UpperKey("A") == "A";
    var s0 := [b0, b1, b0, b1];
    var d0 := map["a" := [b0, b1], "A" := [b0, b1]];
    assert d0[LowerKey("a")] + d0[UpperKey("a")] == s0;
    assert Scanned(d0, "a") == Success(s0);
    assert SpliceMatches([b0, b1], s0, 0, 1) == [b1];
    assert SpliceMatches([b0, b1], s0, 0, 2) == [b1];
    assert SpliceMatches([b0, b1], s0, 0, 3) == [b1];
    assert SpliceMatches([b0, b1], s0, 0, 4) == [b1];
    assert CountId(s0, 0, 1) == 1;
    assert CountId(s0, 0, 2) == 1;
    assert CountId(s0, 0, 4) == 2;
    var s1 := [b1, b0, b1];
    var d1 := map["a" := [b1], "A" := [b0, b1]];
    assert d1[LowerKey("A")] + d1[UpperKey("A")] == s1;
    assert Scanned(d1, "A") == Success(s1);
    assert SpliceMatches([b0, b1], s1, 1, 1) == [b1];
    assert SpliceMatches([b0, b1], s1, 1, 2) == [b1];
    assert SpliceMatches([b0, b1], s1, 1, 3) == [b1];
    assert CountId(s1, 1, 1) == 1;
    assert CountId(s1, 1, 3) == 2;
    assert map["a" := [b0, b1], "A" := [b0, b1]]["a" := [b1]] == map["a" := [b1], "A" := [b0, b1]];
    assert map["a" := [b1], "A" := [b0, b1]]["A" := [b1]] == map["a" := [b1], "A" := [b1]];
  }

  /** The entries of `s` without `id`, in order. */
  function Without(s: seq<Bind>, id: nat): (r: seq<Bind>)
    ensures forall x :: x in r ==> x in s && x.id != id
    ensures forall x :: x in s && x.id != id ==> x in r
    ensures |r| <= |s|
  {
    if s == [] then []
    else Without(s[..|s| - 1], id) + (if s[|s| - 1].id == id then [] else [s[|s| - 1]])
  }

  /** Dropping absent ids changes nothing. */
  lemma {:induction false} WithoutNone(s: seq<Bind>, id: nat)
    requires forall x :: x in s ==> x.id != id
    ensures Without(s, id) == s
  {
    if s != [] {
      assert s == s[..|s| - 1] + [s[|s| - 1]];
      WithoutNone(s[..|s| - 1], id);
    }
  }

  /** Whether some list under a label of `key` holds an entry with `id`. */
  predicate Listed(d: BindMap, key: string, id: nat) {
    exists k :: k in StoredUnder(key) && k in d && exists x :: x in d[k] && x.id == id
  }

  /**
   * Intended: drop every entry with the bind's id from each list its key is stored under
   * (both case forms of a one-character key), and report whether there was any.
   */
  function RemoveIntended(d: BindMap, b: Bind): (r: Removal)
    ensures r.binds.Keys == d.Keys
    ensures forall k :: k in d && k !in StoredUnder(b.key) ==> r.binds[k] == d[k]
    ensures r.removed <==> Listed(d, b.key, b.id)
  {
    Removal(Listed(d, b.key, b.id),
      map k | k in d :: if k in StoredUnder(b.key) then Without(d[k], b.id) else d[k])
  }

  /**
   * Intended: after removal no event on any label of the bind's key fires it, and the
   * dictionary stays case-closed.
   */
  lemma RemoveIntendedClears(d: BindMap, b: Bind, e: KeyEvent)
    requires CaseClosed(d)
    requires e.key in StoredUnder(b.key)
    ensures CaseClosed(RemoveIntended(d, b).binds)
    ensures forall f :: f in Firings(Get(RemoveIntended(d, b).binds, e.key), e) ==> f.id != b.id
  {
    var r := RemoveIntended(d, b).binds;
    forall k | k in r && Single(k)
      ensures LowerKey(k) in r && UpperKey(k) in r
    {
      CaseClosedAt(d, k);
    }
    var t := Get(r, e.key);
    forall f | f in Firings(t, e)
      ensures f.id != b.id
    {
      FiringsExactlyEligible(t, e, f);
      var i :| 0 <= i < |t| && Eligible(t[i], e) && f == FiringOf(t[i]);
      assert t[i] in t;
    }
  }

  /** Intended: a second removal of the same bind reports false and changes nothing. */
  lemma RemoveIntendedOnce(d: BindMap, b: Bind)
    ensures var d1 := RemoveIntended(d, b).binds;
      RemoveIntended(d1, b) == Removal(false, d1)
  {
    var d1 := RemoveIntended(d, b).binds;
    var d2 := RemoveIntended(d1, b).binds;
    forall k | k in d1
      ensures d2[k] == d1[k]
    {
      if k in StoredUnder(b.key) {
        WithoutNone(d1[k], b.id);
      }
    }
    assert d2 == d1;
  }
}
