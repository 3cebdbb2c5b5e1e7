/**
 * The result accumulator of the validation chain (`status.results`, src/index.ts:61):
 * one entry per label, each holding the label's latest value and its named check
 * outcomes. JavaScript objects keep their keys in insertion order, so every object
 * here is an association list: assigning to an existing key keeps its place,
 * assigning to a new key appends it, and `delete` takes the key out.
 */
module Accumulator {

  import opened Wrappers
  import opened JsValues

  /** The argument of `withMessage`: a text or a record of texts. */
  datatype Message = Text(text: string) | Fields(fields: seq<(string, string)>)

  /** One check outcome, `{error, message?}`. */
  datatype Outcome = Outcome(error: bool, message: Option<Message>)

  /**
   * `results[label]`: the `value` key (always present and always first) and the
   * outcomes under their disambiguated check names, in insertion order.
   */
  datatype Entry = Entry(value: Value, outcomes: seq<(string, Outcome)>)

  type ResultMap = seq<(string, Entry)>

  // ----- Association lists --------------------------------------------------------

  function Keys<T>(s: seq<(string, T)>): set<string>
  {
    if s == [] then {} else {s[0].0} + Keys(s[1..])
  }

  /** No key occurs twice, as in a JavaScript object. */
  predicate UniqueKeys<T>(s: seq<(string, T)>)
  {
    s == [] || (s[0].0 !in Keys(s[1..]) && UniqueKeys(s[1..]))
  }

  /** `obj[k]` for an own key. */
  function Find<T>(s: seq<(string, T)>, k: string): (r: Option<T>)
    ensures r.Some? <==> k in Keys(s)
    ensures r.Some? ==> (k, r.value) in s
  {
    if s == [] then None
    else if s[0].0 == k then Some(s[0].1)
    else Find(s[1..], k)
  }

  /** `obj[k] = v`: an own key keeps its position, a new key goes last. */
  function Put<T>(s: seq<(string, T)>, k: string, v: T): seq<(string, T)>
  {
    if s == [] then [(k, v)]
    else if s[0].0 == k then [(k, v)] + s[1..]
    else [s[0]] + Put(s[1..], k, v)
  }

  /** `delete obj[k]`. */
  function Remove<T>(s: seq<(string, T)>, k: string): seq<(string, T)>
  {
    if s == [] then []
    else if s[0].0 == k then Remove(s[1..], k)
    else [s[0]] + Remove(s[1..], k)
  }

  /**
   * After `obj[k] = v` the key is present with `v`, every other key reads as before,
   * a new key is appended, an existing one is replaced in place, and keys stay distinct.
   */
  lemma {:induction false} PutFacts<T>(s: seq<(string, T)>, k: string, v: T)
    ensures var r := Put(s, k, v);
      && Keys(r) == Keys(s) + {k}
      && Find(r, k) == Some(v)
      && (forall k' :: k' != k ==> Find(r, k') == Find(s, k'))
      && (forall p :: p in r ==> p == (k, v) || p in s)
      && (k !in Keys(s) ==> r == s + [(k, v)])
      && (UniqueKeys(s) ==> UniqueKeys(r))
      && (k in Keys(s) ==> |r| == |s|)
    decreases |s|
  {
    if s != [] {
      var r := Put(s, k, v);
      if s[0].0 == k {
        assert r[1..] == s[1..];
      } else {
        PutFacts(s[1..], k, v);
        assert r[1..] == Put(s[1..], k, v);
      }
    }
  }

  /** After `delete obj[k]` the key is gone, every other key reads as before. */
  lemma {:induction false} RemoveFacts<T>(s: seq<(string, T)>, k: string)
    ensures var r := Remove(s, k);
      && Keys(r) == Keys(s) - {k}
      && Find(r, k) == None
      && (forall k' :: k' != k ==> Find(r, k') == Find(s, k'))
      && (forall p :: p in r ==> p in s)
      && (k !in Keys(s) ==> r == s)
      && (UniqueKeys(s) ==> UniqueKeys(r))
    decreases |s|
  {
    if s != [] {
      RemoveFacts(s[1..], k);
      var r := Remove(s, k);
      if s[0].0 != k {
        assert r[1..] == Remove(s[1..], k);
      }
    }
  }

  lemma {:induction false} RemoveAppend<T>(a: seq<(string, T)>, b: seq<(string, T)>, k: string)
    ensures Remove(a + b, k) == Remove(a, k) + Remove(b, k)
    decreases |a|
  {
    if a == [] {
      assert a + b == b;
    } else {
      assert (a + b)[0] == a[0];
      assert (a + b)[1..] == a[1..] + b;
      RemoveAppend(a[1..], b, k);
    }
  }

  /** The number of keys that start with `prefix`. */
  function CountPrefixed<T>(s: seq<(string, T)>, prefix: string): (n: nat)
    ensures n <= |s|
    ensures n == 0 <==> forall i :: 0 <= i < |s| ==> !StartsWith(s[i].0, prefix)
  {
    if s == [] then 0
    else
      assert forall i :: 1 <= i < |s| ==> s[i] == s[1..][i - 1];
      (if StartsWith(s[0].0, prefix) then 1 else 0) + CountPrefixed(s[1..], prefix)
  }

  lemma {:induction false} CountPrefixedAppend<T>(a: seq<(string, T)>, b: seq<(string, T)>, prefix: string)
    ensures CountPrefixed(a + b, prefix) == CountPrefixed(a, prefix) + CountPrefixed(b, prefix)
    decreases |a|
  {
    if a == [] {
      assert a + b == b;
    } else {
      assert (a + b)[0] == a[0];
      assert (a + b)[1..] == a[1..] + b;
      CountPrefixedAppend(a[1..], b, prefix);
    }
  }

  lemma {:induction false} NoPrefixedKey<T>(s: seq<(string, T)>, prefix: string, k: string)
    requires CountPrefixed(s, prefix) == 0 && StartsWith(k, prefix)
    ensures k !in Keys(s)
    decreases |s|
  {
    if s != [] {
      assert !StartsWith(s[0].0, prefix);
      NoPrefixedKey(s[1..], prefix, k);
    }
  }

  lemma {:induction false} CountPrefixedAll<T>(s: seq<(string, T)>, prefix: string)
    requires forall i :: 0 <= i < |s| ==> StartsWith(s[i].0, prefix)
    ensures CountPrefixed(s, prefix) == |s|
    decreases |s|
  {
    if s != [] {
      assert forall i :: 0 <= i < |s| - 1 ==> s[1..][i] == s[i + 1];
      CountPrefixedAll(s[1..], prefix);
    }
  }

  // ----- Naming of check outcomes (src/index.ts:194-209) --------------------------

  /** `<name>_<k>`: the key of the k-th repeated outcome. */
  function Suffixed(name: string, k: nat): string
  {
    name + "_" + NatToDec(k)
  }

  lemma SuffixedProperties(name: string, j: nat, k: nat)
    ensures StartsWith(Suffixed(name, j), name)
    ensures Suffixed(name, j) != name
    ensures Suffixed(name, j) != "value"
    ensures Suffixed(name, j) == Suffixed(name, k) ==> j == k
  {
    var sj, sk := Suffixed(name, j), Suffixed(name, k);
    assert sj[..|name|] == name;
    assert sj[|name|] == '_';
    assert '_' !in "value";
    if sj == sk {
      assert sj[|name| + 1..] == NatToDec(j);
      assert sk[|name| + 1..] == NatToDec(k);
      NatToDecInjective(j, k);
    }
  }

  /**
   * How many keys of the entry match the pattern `^(name)(_d+)?`: with its optional
   * group and no end anchor this is every key that starts with `name`, the `value`
   * key included.
   */
  function PriorCount(e: Entry, name: string): nat
  {
    (if StartsWith("value", name) then 1 else 0) + CountPrefixed(e.outcomes, name)
  }

  /**
   * Makes room for a new outcome of check `name`: when earlier keys match, an
   * outcome stored under the plain name is moved to `<name>_0` (assign, then delete,
   * so the moved key goes to the end), and the new key is `<name>_<matches>`.
   * Returns the entry after the rename and the key for the new outcome.
   */
  function Disambiguate(e: Entry, name: string): (Entry, string)
  {
    var k := PriorCount(e, name);
    if k == 0 then (e, name)
    else
      var renamed :=
        match Find(e.outcomes, name)
        case Some(first) => Remove(Put(e.outcomes, Suffixed(name, 0), first), name)
        case None => e.outcomes;
      (e.(outcomes := renamed), Suffixed(name, k))
  }

  /** Stores the outcome `{error}` of check `name`; returns the entry and the key used. */
  function Record(e: Entry, name: string, error: bool): (Entry, string)
  {
    var (e1, key) := Disambiguate(e, name);
    (e1.(outcomes := Put(e1.outcomes, key, Outcome(error, None))), key)
  }

  /** An entry whose keys are distinct and whose outcomes never shadow `value`. */
  predicate WellFormed(e: Entry)
  {
    UniqueKeys(e.outcomes) && "value" !in Keys(e.outcomes)
  }

  /**
   * Whatever the entry holds, the new outcome is stored, under a key that extends the
   * check's name, the stored value is untouched and the entry stays well formed.
   */
  lemma RecordStores(e: Entry, name: string, error: bool)
    requires WellFormed(e) && name != "value"
    ensures var (e', key) := Record(e, name, error);
      && StartsWith(key, name)
      && Find(e'.outcomes, key) == Some(Outcome(error, None))
      && e'.value == e.value
      && WellFormed(e')
  {
    var (e1, key) := Disambiguate(e, name);
    assert StartsWith(name, name);
    if PriorCount(e, name) > 0 {
      SuffixedProperties(name, PriorCount(e, name), 0);
      SuffixedProperties(name, 0, 0);
      var first := Find(e.outcomes, name);
      if first.Some? {
        PutFacts(e.outcomes, Suffixed(name, 0), first.value);
        RemoveFacts(Put(e.outcomes, Suffixed(name, 0), first.value), name);
      }
    }
    assert WellFormed(e1);
    PutFacts(e1.outcomes, key, Outcome(error, None));
  }

  /** The outcomes that `n` executions of one check with stored errors `errs` add. */
  function Expected(name: string, errs: seq<bool>): seq<(string, Outcome)>
  {
    if |errs| == 1 then [(name, Outcome(errs[0], None))]
    else seq(|errs|, i requires 0 <= i < |errs| => (Suffixed(name, i), Outcome(errs[i], None)))
  }

  /** Executes check `name` once per element of `errs`, in order. */
  function RecordAll(e: Entry, name: string, errs: seq<bool>): Entry
    decreases |errs|
  {
    if errs == [] then e
    else Record(RecordAll(e, name, errs[..|errs| - 1]), name, errs[|errs| - 1]).0
  }

  /**
   * Repeating one check on a label whose keys do not yet start with its name: the
   * first execution keeps the plain name; the second renames it to `<name>_0` and
   * stores `<name>_1`; the k-th execution stores `<name>_<k-1>`. Nothing else in the
   * entry moves, and the number of outcome keys grows by the number of executions.
   */
  lemma {:induction false} RepeatedCheckNaming(e: Entry, name: string, errs: seq<bool>)
    requires CountPrefixed(e.outcomes, name) == 0
    requires !StartsWith("value", name)
    requires errs != []
    ensures RecordAll(e, name, errs) == e.(outcomes := e.outcomes + Expected(name, errs))
    ensures |RecordAll(e, name, errs).outcomes| == |e.outcomes| + |errs|
    decreases |errs|
  {
    var n := |errs|;
    if n == 1 {
      assert errs[..n - 1] == [];
      FirstExecution(e, name, errs[0]);
    } else {
      RepeatedCheckNaming(e, name, errs[..n - 1]);
      if n == 2 {
        RepeatedSecond(e, name, errs);
      } else {
        RepeatedLater(e, name, errs);
      }
    }
  }

  lemma RepeatedSecond(e: Entry, name: string, errs: seq<bool>)
    requires CountPrefixed(e.outcomes, name) == 0
    requires !StartsWith("value", name)
    requires |errs| == 2
    requires RecordAll(e, name, errs[..1]) == e.(outcomes := e.outcomes + Expected(name, errs[..1]))
    ensures RecordAll(e, name, errs) == e.(outcomes := e.outcomes + Expected(name, errs))
  {
    ExpectedSnoc(name, errs);
    assert Expected(name, errs[..1]) == [(name, Outcome(errs[0], None))];
    SecondExecution(e, name, Outcome(errs[0], None), errs[1]);
  }

  lemma RepeatedLater(e: Entry, name: string, errs: seq<bool>)
    requires CountPrefixed(e.outcomes, name) == 0
    requires !StartsWith("value", name)
    requires |errs| > 2
    requires var init := errs[..|errs| - 1];
      RecordAll(e, name, init) == e.(outcomes := e.outcomes + Expected(name, init))
    ensures RecordAll(e, name, errs) == e.(outcomes := e.outcomes + Expected(name, errs))
  {
    var n := |errs|;
    ExpectedSnoc(name, errs);
    var ex, last := Expected(name, errs[..n - 1]), (Suffixed(name, n - 1), Outcome(errs[n - 1], None));
    LaterExecution(e, name, ex, errs[n - 1]);
    AppendAssoc(e.outcomes, ex, [last]);
  }

  lemma AppendAssoc<T>(a: seq<T>, b: seq<T>, c: seq<T>)
    ensures a + b + c == a + (b + c)
  {
  }

  lemma ExpectedSnoc(name: string, errs: seq<bool>)
    requires |errs| >= 2
    ensures var n := |errs|;
      var last := (Suffixed(name, n - 1), Outcome(errs[n - 1], None));
      && (n == 2 ==> Expected(name, errs) == [(Suffixed(name, 0), Outcome(errs[0], None)), last])
      && (n > 2 ==> Expected(name, errs) == Expected(name, errs[..n - 1]) + [last])
      && |Expected(name, errs[..n - 1])| == n - 1
      && (n > 2 ==> forall i :: 0 <= i < n - 1 ==> Expected(name, errs[..n - 1])[i].0 == Suffixed(name, i))
  {
  }

  lemma FirstExecution(e: Entry, name: string, error: bool)
    requires CountPrefixed(e.outcomes, name) == 0
    requires !StartsWith("value", name)
    ensures Record(e, name, error).0 == e.(outcomes := e.outcomes + [(name, Outcome(error, None))])
  {
    assert StartsWith(name, name);
    NoPrefixedKey(e.outcomes, name, name);
    PutFacts(e.outcomes, name, Outcome(error, None));
  }

  lemma SecondExecution(e: Entry, name: string, o0: Outcome, error: bool)
    requires CountPrefixed(e.outcomes, name) == 0
    requires !StartsWith("value", name)
    ensures Record(e.(outcomes := e.outcomes + [(name, o0)]), name, error).0
         == e.(outcomes := e.outcomes + [(Suffixed(name, 0), o0), (Suffixed(name, 1), Outcome(error, None))])
  {
    var prev := e.(outcomes := e.outcomes + [(name, o0)]);
    var n0, n1 := Suffixed(name, 0), Suffixed(name, 1);
    var renamed := e.outcomes + [(n0, o0)];
    SecondExecutionRenames(e, name, o0);
    assert Disambiguate(prev, name) == (prev.(outcomes := renamed), n1);
    SecondExecutionFreshKey(e, name, o0);
    RecordAppends(prev, name, error, renamed, n1);
    assert renamed + [(n1, Outcome(error, None))] == e.outcomes + [(n0, o0), (n1, Outcome(error, None))];
  }

  /**
   * The rename of a second execution moves the plain key to the end: with other keys
   * before and after the single `<name>`, the entry becomes those keys in their
   * order, then `<name>_0` with the first outcome, then `<name>_1` with the new one.
   */
  lemma SecondExecutionMoves(e: Entry, name: string, a: seq<(string, Outcome)>, o0: Outcome,
                             b: seq<(string, Outcome)>, error: bool)
    requires CountPrefixed(a, name) == 0 && CountPrefixed(b, name) == 0
    requires !StartsWith("value", name)
    ensures Record(e.(outcomes := a + [(name, o0)] + b), name, error)
         == (e.(outcomes := a + b + [(Suffixed(name, 0), o0), (Suffixed(name, 1), Outcome(error, None))]),
             Suffixed(name, 1))
  {
    var n0, n1 := Suffixed(name, 0), Suffixed(name, 1);
    var prev := e.(outcomes := a + [(name, o0)] + b);
    var renamed := a + b + [(n0, o0)];
    MovesFindsPlain(a, o0, b, name);
    assert PriorCount(prev, name) == 1;
    MovesRemovesPlain(a, o0, b, name);
    assert Disambiguate(prev, name) == (prev.(outcomes := renamed), n1);
    SuffixedProperties(name, 1, 0);
    NoPrefixedKey(a, name, n1);
    NoPrefixedKey(b, name, n1);
    KeysAppend(a, b);
    KeysAppend(a + b, [(n0, o0)]);
    RecordAppends(prev, name, error, renamed, n1);
    assert renamed + [(n1, Outcome(error, None))] == a + b + [(n0, o0), (n1, Outcome(error, None))];
  }

  /** The single plain key is the one match, and `<name>_0` is not yet a key. */
  lemma MovesFindsPlain(a: seq<(string, Outcome)>, o0: Outcome, b: seq<(string, Outcome)>, name: string)
    requires CountPrefixed(a, name) == 0 && CountPrefixed(b, name) == 0
    ensures CountPrefixed(a + [(name, o0)] + b, name) == 1
    ensures Find(a + [(name, o0)] + b, name) == Some(o0)
    ensures Suffixed(name, 0) !in Keys(a + [(name, o0)] + b)
  {
    var n0 := Suffixed(name, 0);
    assert StartsWith(name, name);
    SuffixedProperties(name, 0, 0);
    CountPrefixedAppend(a, [(name, o0)], name);
    CountPrefixedAppend(a + [(name, o0)], b, name);
    NoPrefixedKey(a, name, name);
    NoPrefixedKey(a, name, n0);
    NoPrefixedKey(b, name, n0);
    AppendAssoc(a, [(name, o0)], b);
    FindAppendAbsent(a, [(name, o0)] + b, name);
    KeysAppend(a, [(name, o0)]);
    KeysAppend(a + [(name, o0)], b);
  }

  /** Assigning `<name>_0`, then deleting `<name>`, leaves the other keys in order. */
  lemma MovesRemovesPlain(a: seq<(string, Outcome)>, o0: Outcome, b: seq<(string, Outcome)>, name: string)
    requires CountPrefixed(a, name) == 0 && CountPrefixed(b, name) == 0
    requires Suffixed(name, 0) !in Keys(a + [(name, o0)] + b)
    ensures Remove(Put(a + [(name, o0)] + b, Suffixed(name, 0), o0), name) == a + b + [(Suffixed(name, 0), o0)]
  {
    var n0 := Suffixed(name, 0);
    var os := a + [(name, o0)] + b;
    assert StartsWith(name, name);
    SuffixedProperties(name, 0, 0);
    NoPrefixedKey(a, name, name);
    NoPrefixedKey(b, name, name);
    PutAbsent(os, n0, o0);
    AppendAssoc(a + [(name, o0)], b, [(n0, o0)]);
    RemoveAppend(a + [(name, o0)], b + [(n0, o0)], name);
    RemoveAppend(a, [(name, o0)], name);
    RemoveAppend(b, [(n0, o0)], name);
    RemoveAbsent(a, name);
    RemoveAbsent(b, name);
    assert Remove([(name, o0)], name) == [] by {
      assert [(name, o0)][1..] == [];
    }
    assert Remove([(n0, o0)], name) == [(n0, o0)] by {
      assert [(n0, o0)][1..] == [];
    }
  }

  lemma PutAbsent<T>(s: seq<(string, T)>, k: string, v: T)
    requires k !in Keys(s)
    ensures Put(s, k, v) == s + [(k, v)]
  {
    PutFacts(s, k, v);
  }

  lemma RemoveAbsent<T>(s: seq<(string, T)>, k: string)
    requires k !in Keys(s)
    ensures Remove(s, k) == s
  {
    RemoveFacts(s, k);
  }

  lemma SecondExecutionRenames(e: Entry, name: string, o0: Outcome)
    requires CountPrefixed(e.outcomes, name) == 0
    requires !StartsWith("value", name)
    ensures PriorCount(e.(outcomes := e.outcomes + [(name, o0)]), name) == 1
    ensures Find(e.outcomes + [(name, o0)], name) == Some(o0)
    ensures Remove(Put(e.outcomes + [(name, o0)], Suffixed(name, 0), o0), name)
         == e.outcomes + [(Suffixed(name, 0), o0)]
  {
    var n0 := Suffixed(name, 0);
    assert StartsWith(name, name);
    CountPrefixedAppend(e.outcomes, [(name, o0)], name);
    NoPrefixedKey(e.outcomes, name, name);
    FindAppendAbsent(e.outcomes, [(name, o0)], name);
    SecondExecutionRemove(e.outcomes, name, o0);
  }

  lemma SecondExecutionRemove(os: seq<(string, Outcome)>, name: string, o0: Outcome)
    requires CountPrefixed(os, name) == 0
    ensures Remove(Put(os + [(name, o0)], Suffixed(name, 0), o0), name) == os + [(Suffixed(name, 0), o0)]
  {
    var n0 := Suffixed(name, 0);
    SuffixedProperties(name, 0, 0);
    assert StartsWith(name, name);
    NoPrefixedKey(os, name, name);
    NoPrefixedKey(os, name, n0);
    KeysAppend(os, [(name, o0)]);
    PutFacts(os + [(name, o0)], n0, o0);
    AppendAssoc(os, [(name, o0)], [(n0, o0)]);
    var tail := [(name, o0)] + [(n0, o0)];
    assert Put(os + [(name, o0)], n0, o0) == os + tail;
    RemoveAppend(os, tail, name);
    RemoveFacts(os, name);
    RemoveHead(tail, name);
    assert tail[1..] == [(n0, o0)];
  }

  lemma SecondExecutionFreshKey(e: Entry, name: string, o0: Outcome)
    requires CountPrefixed(e.outcomes, name) == 0
    ensures Suffixed(name, 1) !in Keys(e.outcomes + [(Suffixed(name, 0), o0)])
  {
    SuffixedProperties(name, 1, 0);
    NoPrefixedKey(e.outcomes, name, Suffixed(name, 1));
    KeysAppend(e.outcomes, [(Suffixed(name, 0), o0)]);
  }

  lemma RecordAppends(e: Entry, name: string, error: bool, renamed: seq<(string, Outcome)>, key: string)
    requires Disambiguate(e, name) == (e.(outcomes := renamed), key)
    requires key !in Keys(renamed)
    ensures Record(e, name, error).0 == e.(outcomes := renamed + [(key, Outcome(error, None))])
  {
    PutFacts(renamed, key, Outcome(error, None));
  }

  lemma LaterExecution(e: Entry, name: string, ex: seq<(string, Outcome)>, error: bool)
    requires CountPrefixed(e.outcomes, name) == 0
    requires !StartsWith("value", name)
    requires |ex| >= 2
    requires forall i :: 0 <= i < |ex| ==> ex[i].0 == Suffixed(name, i)
    ensures Record(e.(outcomes := e.outcomes + ex), name, error).0
         == e.(outcomes := e.outcomes + ex + [(Suffixed(name, |ex|), Outcome(error, None))])
  {
    var prev := e.(outcomes := e.outcomes + ex);
    var k := |ex|;
    var nk := Suffixed(name, k);
    assert StartsWith(name, name);
    NoPrefixedKey(e.outcomes, name, name);
    forall i | 0 <= i < k ensures StartsWith(ex[i].0, name) && ex[i].0 != name && ex[i].0 != nk {
      SuffixedProperties(name, i, k);
    }
    CountPrefixedAll(ex, name);
    CountPrefixedAppend(e.outcomes, ex, name);
    assert PriorCount(prev, name) == k;
    KeysAppend(e.outcomes, ex);
    KeysIndex(ex, name);
    KeysIndex(ex, nk);
    SuffixedProperties(name, k, k);
    NoPrefixedKey(e.outcomes, name, nk);
    assert Find(prev.outcomes, name) == None;
    assert Disambiguate(prev, name) == (prev, nk);
    RecordAppends(prev, name, error, prev.outcomes, nk);
  }

  lemma {:induction false} KeysIndex<T>(s: seq<(string, T)>, k: string)
    ensures k in Keys(s) <==> exists i :: 0 <= i < |s| && s[i].0 == k
    decreases |s|
  {
    if s != [] {
      KeysIndex(s[1..], k);
      if exists i :: 0 <= i < |s| && s[i].0 == k {
        var i :| 0 <= i < |s| && s[i].0 == k;
        if i > 0 {
          assert s[1..][i - 1].0 == k;
        }
      }
      if exists i :: 0 <= i < |s[1..]| && s[1..][i].0 == k {
        var i :| 0 <= i < |s[1..]| && s[1..][i].0 == k;
        assert s[i + 1].0 == k;
      }
    }
  }

  lemma {:induction false} KeysAppend<T>(a: seq<(string, T)>, b: seq<(string, T)>)
    ensures Keys(a + b) == Keys(a) + Keys(b)
    decreases |a|
  {
    if a == [] {
      assert a + b == b;
    } else {
      assert (a + b)[1..] == a[1..] + b;
      KeysAppend(a[1..], b);
    }
  }

  lemma {:induction false} FindAppendAbsent<T>(a: seq<(string, T)>, b: seq<(string, T)>, k: string)
    requires k !in Keys(a)
    ensures Find(a + b, k) == Find(b, k)
    decreases |a|
  {
    if a == [] {
      assert a + b == b;
    } else {
      assert (a + b)[1..] == a[1..] + b;
      FindAppendAbsent(a[1..], b, k);
    }
  }

  lemma RemoveHead<T>(s: seq<(string, T)>, k: string)
    requires s != [] && s[0].0 == k && k !in Keys(s[1..])
    ensures Remove(s, k) == s[1..]
  {
    RemoveFacts(s[1..], k);
  }

  /** A check named `isIP` after an outcome `isIPRange` lands on `isIP_1`. */
  lemma PrefixCollision(v: Value, o: Outcome, error: bool)
    ensures Record(Entry(v, [("isIPRange", o)]), "isIP", error)
         == (Entry(v, [("isIPRange", o), ("isIP_1", Outcome(error, None))]), "isIP_1")
  {
    var e := Entry(v, [("isIPRange", o)]);
    assert StartsWith("isIPRange", "isIP");
    assert "value"[0] != "isIP"[0];
    assert CountPrefixed(e.outcomes, "isIP") == 1;
    assert "isIP" !in Keys(e.outcomes);
    assert Find(e.outcomes, "isIP") == None;
    assert NatToDec(1) == "1";
    assert Suffixed("isIP", 1) == "isIP_1";
    assert "isIP_1" !in Keys(e.outcomes);
    assert Disambiguate(e, "isIP") == (e, "isIP_1");
    assert Put(e.outcomes, "isIP_1", Outcome(error, None)) == e.outcomes + [("isIP_1", Outcome(error, None))];
    assert e.outcomes + [("isIP_1", Outcome(error, None))] == [("isIPRange", o), ("isIP_1", Outcome(error, None))];
  }

  // ----- Derived views (src/index.ts:66-113) --------------------------------------

  /** The outcomes with `error` set, in order. */
  function ErrorsIn(os: seq<(string, Outcome)>): (r: seq<(string, Outcome)>)
    ensures forall p :: p in r <==> p in os && p.1.error
    ensures |r| <= |os|
  {
    if os == [] then []
    else (if os[0].1.error then [os[0]] else []) + ErrorsIn(os[1..])
  }

  /** The getter `errorCount`. */
  function ErrorTotal(rs: ResultMap): nat
  {
    if rs == [] then 0 else |ErrorsIn(rs[0].1.outcomes)| + ErrorTotal(rs[1..])
  }

  /** The getter `errors`: labels with an erroring outcome, with their value and those outcomes. */
  function ErrorsView(rs: ResultMap): ResultMap
  {
    if rs == [] then []
    else
      var errs := ErrorsIn(rs[0].1.outcomes);
      (if errs != [] then [(rs[0].0, Entry(rs[0].1.value, errs))] else []) + ErrorsView(rs[1..])
  }

  /** The getter `values`. */
  function ValuesView(rs: ResultMap): seq<(string, Value)>
  {
    if rs == [] then [] else [(rs[0].0, rs[0].1.value)] + ValuesView(rs[1..])
  }

  /** The stored value of a label, `undefined` when the label is absent. */
  function StoredValue(rs: ResultMap, k: string): Value
  {
    match Find(rs, k)
    case Some(e) => e.value
    case None => Undefined
  }

  /** The error count is positive exactly when some label holds an erroring outcome. */
  lemma {:induction false} ErrorTotalPositive(rs: ResultMap)
    ensures ErrorTotal(rs) > 0 <==>
      exists i, j :: 0 <= i < |rs| && 0 <= j < |rs[i].1.outcomes| && rs[i].1.outcomes[j].1.error
    decreases |rs|
  {
    if rs != [] {
      ErrorTotalPositive(rs[1..]);
      var os := rs[0].1.outcomes;
      if ErrorsIn(os) != [] {
        var p := ErrorsIn(os)[0];
        assert p in os;
        var j :| 0 <= j < |os| && os[j] == p;
        assert rs[0].1.outcomes[j].1.error;
      }
      if exists i, j :: 0 <= i < |rs| && 0 <= j < |rs[i].1.outcomes| && rs[i].1.outcomes[j].1.error {
        var i, j :| 0 <= i < |rs| && 0 <= j < |rs[i].1.outcomes| && rs[i].1.outcomes[j].1.error;
        if i == 0 {
          assert os[j] in ErrorsIn(os);
        } else {
          assert rs[1..][i - 1].1.outcomes[j].1.error;
        }
      }
    }
  }

  lemma {:induction false} ErrorsInIdempotent(os: seq<(string, Outcome)>)
    ensures ErrorsIn(ErrorsIn(os)) == ErrorsIn(os)
    decreases |os|
  {
    if os != [] {
      ErrorsInIdempotent(os[1..]);
      var rest := ErrorsIn(os[1..]);
      if os[0].1.error {
        assert ([os[0]] + rest)[0] == os[0];
        assert ([os[0]] + rest)[1..] == rest;
      } else {
        assert ErrorsIn(os) == rest;
      }
    }
  }

  /** Counting errors in the `errors` view gives the `errorCount`. */
  lemma {:induction false} ErrorsViewTotal(rs: ResultMap)
    ensures ErrorTotal(ErrorsView(rs)) == ErrorTotal(rs)
    decreases |rs|
  {
    if rs != [] {
      ErrorsViewTotal(rs[1..]);
      var errs := ErrorsIn(rs[0].1.outcomes);
      if errs != [] {
        ErrorsInIdempotent(rs[0].1.outcomes);
        var v := [(rs[0].0, Entry(rs[0].1.value, errs))] + ErrorsView(rs[1..]);
        assert ErrorsView(rs) == v;
        assert v[0] == (rs[0].0, Entry(rs[0].1.value, errs));
        assert v[1..] == ErrorsView(rs[1..]);
      } else {
        assert ErrorsView(rs) == ErrorsView(rs[1..]);
      }
    }
  }

  lemma {:induction false} ErrorsViewKeys(rs: ResultMap)
    ensures Keys(ErrorsView(rs)) <= Keys(rs)
    decreases |rs|
  {
    if rs != [] {
      ErrorsViewKeys(rs[1..]);
      assert Keys(rs) == {rs[0].0} + Keys(rs[1..]);
      var errs := ErrorsIn(rs[0].1.outcomes);
      var head := if errs != [] then [(rs[0].0, Entry(rs[0].1.value, errs))] else [];
      KeysAppend(head, ErrorsView(rs[1..]));
    }
  }

  /**
   * A label is in the `errors` view exactly when it has an erroring outcome, and then
   * with its current value and exactly its erroring outcomes, in their order.
   */
  lemma {:induction false} ErrorsViewFind(rs: ResultMap, key: string)
    requires UniqueKeys(rs)
    ensures Find(ErrorsView(rs), key) ==
      match Find(rs, key)
      case None => None
      case Some(e) => if ErrorsIn(e.outcomes) == [] then None else Some(Entry(e.value, ErrorsIn(e.outcomes)))
    decreases |rs|
  {
    if rs != [] {
      assert UniqueKeys(rs[1..]);
      ErrorsViewFind(rs[1..], key);
      var errs := ErrorsIn(rs[0].1.outcomes);
      var head := if errs != [] then [(rs[0].0, Entry(rs[0].1.value, errs))] else [];
      if rs[0].0 == key {
        assert key !in Keys(rs[1..]);
        ErrorsViewKeys(rs[1..]);
        if errs == [] {
          assert ErrorsView(rs) == ErrorsView(rs[1..]);
        }
      } else {
        assert key !in Keys(head);
        FindAppendAbsent(head, ErrorsView(rs[1..]), key);
      }
    }
  }

  /** Every label of the accumulator appears in the `values` view with its stored value. */
  lemma {:induction false} ValuesViewFind(rs: ResultMap, key: string)
    ensures Find(ValuesView(rs), key) ==
      match Find(rs, key)
      case None => None
      case Some(e) => Some(e.value)
    ensures Keys(ValuesView(rs)) == Keys(rs)
    decreases |rs|
  {
    if rs != [] {
      ValuesViewFind(rs[1..], key);
      assert Keys(rs) == {rs[0].0} + Keys(rs[1..]);
      var v := ValuesView(rs);
      assert v[1..] == ValuesView(rs[1..]);
      assert Keys(v) == {v[0].0} + Keys(v[1..]);
    }
  }

  // ----- addResultValues (src/index.ts:133-144) -----------------------------------

  /**
   * Adds raw values to the accumulator, key by key in order: a key is (re)written as
   * `{value}`, dropping its outcomes, when `overwrite` is set or its stored value is
   * falsy (an absent key reads as `undefined`); otherwise it is left alone.
   */
  function AddValues(rs: ResultMap, vals: seq<(string, Value)>, overwrite: bool): ResultMap
    decreases |vals|
  {
    if vals == [] then rs
    else
      var (k, v) := vals[0];
      var rs1 := if overwrite || Falsy(StoredValue(rs, k)) then Put(rs, k, Entry(v, [])) else rs;
      AddValues(rs1, vals[1..], overwrite)
  }

  /**
   * For distinct keys (as an object has), every key of `vals` is written exactly when
   * `overwrite` is set or its old stored value is falsy, and every other label keeps
   * its entry; distinct labels and well-formed entries are preserved.
   */
  lemma {:induction false} AddValuesContract(rs: ResultMap, vals: seq<(string, Value)>, overwrite: bool, k: string)
    requires UniqueKeys(vals)
    ensures Find(AddValues(rs, vals, overwrite), k) ==
      if k in Keys(vals) && (overwrite || Falsy(StoredValue(rs, k)))
      then Some(Entry(Find(vals, k).value, []))
      else Find(rs, k)
    decreases |vals|
  {
    if vals != [] {
      var (k0, v0) := vals[0];
      var rs1 := if overwrite || Falsy(StoredValue(rs, k0)) then Put(rs, k0, Entry(v0, [])) else rs;
      AddValuesContract(rs1, vals[1..], overwrite, k);
      PutFacts(rs, k0, Entry(v0, []));
      if k != k0 {
        assert StoredValue(rs1, k) == StoredValue(rs, k);
      }
    }
  }

  lemma {:induction false} AddValuesPreserves(rs: ResultMap, vals: seq<(string, Value)>, overwrite: bool)
    ensures UniqueKeys(rs) ==> UniqueKeys(AddValues(rs, vals, overwrite))
    ensures Keys(rs) <= Keys(AddValues(rs, vals, overwrite))
    ensures (forall p :: p in rs ==> WellFormed(p.1)) ==>
      forall p :: p in AddValues(rs, vals, overwrite) ==> WellFormed(p.1)
    decreases |vals|
  {
    if vals != [] {
      var (k0, v0) := vals[0];
      var rs1 := if overwrite || Falsy(StoredValue(rs, k0)) then Put(rs, k0, Entry(v0, [])) else rs;
      AddValuesPreserves(rs1, vals[1..], overwrite);
      PutFacts(rs, k0, Entry(v0, []));
      assert WellFormed(Entry(v0, []));
    }
  }
}
