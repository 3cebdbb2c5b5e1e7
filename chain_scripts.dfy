/**
 * Chains of calls. A script is the sequence of public calls a caller makes on one
 * `ValidatorJSChain` (each returns `this`, so a script is one fluent expression),
 * and `Run` is what that sequence does: it stops at the first call that throws.
 * The lemmas here are the promises that span several calls.
 */
module ChainScripts {

  import opened Wrappers
  import opened JsValues
  import opened Accumulator
  import opened ChainState

  /** One public call on the chain; checks and transforms are named callables. */
  datatype Op =
    | SetValueOp(name: string, value: Value, unbail: bool, convertToString: bool)
    | CheckOp(fnName: string, check: Value -> bool)
    | SanitizeOp(transform: string -> Value)
    | DefaultOp(fallback: Value)
    | OptionalOp
    | NotOp
    | BailOp
    | UnbailOp
    | IfOp(condition: Value -> bool)
    | EndIfOp
    | WithMessageOp(message: Message)
    | AddResultValuesOp(vals: seq<(string, Value)>, overwrite: bool)
    | ClearResultsOp
    | PeekOp

  function Apply(s: State, op: Op): (State, Status)
  {
    match op
    case SetValueOp(name, v, unbail, convert) => SetValue(s, name, v, unbail, convert)
    case CheckOp(fnName, check) => (ValidatorMethod(s, fnName, check), Ok)
    case SanitizeOp(transform) => (SanitizerMethod(s, transform), Ok)
    case DefaultOp(v) => Default(s, v)
    case OptionalOp => (Optional(s), Ok)
    case NotOp => (Not(s), Ok)
    case BailOp => (Bail(s), Ok)
    case UnbailOp => (Unbail(s), Ok)
    case IfOp(condition) => (If(s, condition), Ok)
    case EndIfOp => (EndIf(s), Ok)
    case WithMessageOp(m) => WithMessage(s, m)
    case AddResultValuesOp(vals, overwrite) => (AddResultValues(s, vals, overwrite), Ok)
    case ClearResultsOp => (ClearResults(s), Ok)
    case PeekOp => (s, Ok)
  }

  /** The calls of `ops` in order, up to and including the first that throws. */
  function Run(s: State, ops: seq<Op>): (State, Status)
    decreases |ops|
  {
    if ops == [] then (s, Ok)
    else
      var (t, st) := Apply(s, ops[0]);
      if st.Thrown? then (t, st) else Run(t, ops[1..])
  }

  /** Every check of the script has a name its naming pattern reads literally. */
  predicate LiteralChecks(ops: seq<Op>)
  {
    forall i :: 0 <= i < |ops| && ops[i].CheckOp? ==> LiteralName(ops[i].fnName)
  }

  /** The current label, when there is one, already has its entry. */
  predicate Seeded(s: State)
  {
    HasLabel(s) ==> s.inputLabel.value in Keys(s.results)
  }

  /** The outcome stored under `lastValidator` for the current label. */
  function LastOutcome(s: State): Option<Outcome>
  {
    if s.lastValidator.None? || !HasLabel(s) then None
    else
      match Find(s.results, s.inputLabel.value)
      case None => None
      case Some(e) => Find(e.outcomes, s.lastValidator.value)
  }

  // ----- Composition and the invariant ---------------------------------------------

  /** One step of `Run`. */
  lemma RunCons(s: State, op: Op, rest: seq<Op>)
    ensures Run(s, [op] + rest) ==
      var (t, st) := Apply(s, op);
      if st.Thrown? then (t, st) else Run(t, rest)
  {
    assert ([op] + rest)[1..] == rest;
  }

  /** Running `a + b` is running `a`, then `b` unless `a` threw. */
  lemma {:induction false} RunAppend(s: State, a: seq<Op>, b: seq<Op>)
    ensures Run(s, a + b) ==
      var (t, st) := Run(s, a);
      if st.Thrown? then (t, st) else Run(t, b)
    decreases |a|
  {
    if a == [] {
      assert a + b == b;
    } else {
      assert (a + b)[0] == a[0];
      assert (a + b)[1..] == a[1..] + b;
      var (t, st) := Apply(s, a[0]);
      if st.Ok? {
        RunAppend(t, a[1..], b);
      }
    }
  }

  lemma ApplyValid(s: State, op: Op)
    requires Valid(s)
    requires op.CheckOp? ==> LiteralName(op.fnName)
    ensures Valid(Apply(s, op).0)
  {
    match op
    case SetValueOp(name, v, unbail, convert) => SetValueValid(s, name, v, unbail, convert);
    case CheckOp(fnName, check) => ValidatorMethodValid(s, fnName, check);
    case SanitizeOp(transform) => SanitizerMethodValid(s, transform);
    case DefaultOp(v) => DefaultValid(s, v);
    case WithMessageOp(m) => WithMessageValid(s, m);
    case AddResultValuesOp(vals, overwrite) => AddResultValuesValid(s, vals, overwrite);
    case _ =>
  }

  /**
   * Every state a script reaches from a valid one is valid: labels stay distinct,
   * entries well formed, and a recorded `lastValidator` keeps a current label with
   * an entry (not necessarily one holding that outcome).
   */
  lemma {:induction false} RunValid(s: State, ops: seq<Op>)
    requires Valid(s) && LiteralChecks(ops)
    ensures Valid(Run(s, ops).0)
    decreases |ops|
  {
    if ops != [] {
      ApplyValid(s, ops[0]);
      var (t, st) := Apply(s, ops[0]);
      if st.Ok? {
        assert forall i :: 0 <= i < |ops[1..]| ==> ops[1..][i] == ops[i + 1];
        RunValid(t, ops[1..]);
      }
    }
  }

  // ----- Bail ---------------------------------------------------------------------

  /** A call that neither lifts the bail nor edits the accumulator directly. */
  predicate KeepsBail(op: Op)
  {
    !(op.SetValueOp? && op.unbail) && !op.UnbailOp? && !op.DefaultOp?
    && !op.AddResultValuesOp? && !op.ClearResultsOp?
  }

  lemma ApplyWhileBailed(s: State, op: Op)
    requires s.bailed && Seeded(s) && KeepsBail(op)
    ensures var (t, st) := Apply(s, op);
      && st == Ok
      && t.bailed
      && t.(suspended := s.suspended, skipped := s.skipped, invertNext := s.invertNext) == s
  {
    if op.CheckOp? {
      ValidatorMethodGated(s, op.fnName, op.check);
    }
  }

  /**
   * Once bailed, no check, transform, message or new value changes the input or the
   * accumulator, and nothing throws, until the bail is lifted or `status` is reset;
   * only the per-call flags `suspended`, `skipped` and `invertNext` can move.
   */
  lemma {:induction false} BailFreezesResults(s: State, ops: seq<Op>)
    requires s.bailed && Seeded(s)
    requires forall i :: 0 <= i < |ops| ==> KeepsBail(ops[i])
    ensures var (t, st) := Run(s, ops);
      && st == Ok
      && t.bailed
      && t.(suspended := s.suspended, skipped := s.skipped, invertNext := s.invertNext) == s
    decreases |ops|
  {
    if ops != [] {
      ApplyWhileBailed(s, ops[0]);
      var t := Apply(s, ops[0]).0;
      assert forall i :: 0 <= i < |ops[1..]| ==> ops[1..][i] == ops[i + 1];
      BailFreezesResults(t, ops[1..]);
    }
  }

  // ----- Inversion ----------------------------------------------------------------

  /**
   * `not()` inverts exactly the next executed check: after `not().c1().c2()` on an
   * ungated chain with a label, `c1`'s outcome is `error = verdict`, `c2`'s is
   * `error = !verdict`, and `invertNext` is clear again.
   */
  lemma InvertConsumedOnce(s: State, f1: string, c1: Value -> bool, f2: string, c2: Value -> bool)
    requires Valid(s) && HasLabel(s) && !Gated(s)
    requires LiteralName(f1) && LiteralName(f2)
    ensures var t1 := ValidatorMethod(Not(s), f1, c1);
      var t2 := ValidatorMethod(t1, f2, c2);
      && Run(s, [NotOp, CheckOp(f1, c1), CheckOp(f2, c2)]) == (t2, Ok)
      && LastOutcome(t1) == Some(Outcome(c1(s.inputValue), None))
      && LastOutcome(t2) == Some(Outcome(!c2(s.inputValue), None))
      && !t2.invertNext
  {
    var s1 := Not(s);
    CheckRecordsLast(s1, f1, c1);
    CheckRecordsLast(ValidatorMethod(s1, f1, c1), f2, c2);
    RunNotCheckCheck(s, f1, c1, f2, c2);
  }

  lemma RunNotCheckCheck(s: State, f1: string, c1: Value -> bool, f2: string, c2: Value -> bool)
    ensures Run(s, [NotOp, CheckOp(f1, c1), CheckOp(f2, c2)])
         == (ValidatorMethod(ValidatorMethod(Not(s), f1, c1), f2, c2), Ok)
  {
    RunOk3(s, NotOp, CheckOp(f1, c1), CheckOp(f2, c2));
  }

  /** Three calls none of which throws. */
  lemma RunOk3(s: State, a: Op, b: Op, c: Op)
    requires Apply(s, a).1 == Ok && Apply(Apply(s, a).0, b).1 == Ok
    ensures Run(s, [a, b, c]) == Apply(Apply(Apply(s, a).0, b).0, c)
  {
    var t := Apply(Apply(s, a).0, b).0;
    RunCons(t, c, []);
    RunCons(Apply(s, a).0, b, [c]);
    RunCons(s, a, [b, c]);
    assert [a, b, c] == [a] + [b, c];
    assert [b, c] == [b] + [c];
    assert [c] == [c] + [];
  }

  /** An executed check's outcome is what `LastOutcome` reads back, and inversion is consumed. */
  lemma CheckRecordsLast(s: State, fnName: string, check: Value -> bool)
    requires Valid(s) && HasLabel(s) && !Gated(s) && LiteralName(fnName)
    ensures var t := ValidatorMethod(s, fnName, check);
      var verdict := check(s.inputValue);
      && LastOutcome(t) == Some(Outcome(if s.invertNext then verdict else !verdict, None))
      && !t.invertNext && HasLabel(t) && !Gated(t)
      && t.inputValue == s.inputValue
      && Valid(t)
  {
    ValidatorMethodRecords(s, fnName, check);
    ValidatorMethodValid(s, fnName, check);
  }

  // ----- Skipping and branches ------------------------------------------------------

  /**
   * The chain after a gated check: the current label's entry `{value}` is created
   * when it is missing, and nothing else changes.
   */
  function Seeding(s: State): State
  {
    if HasLabel(s) then SeedEntry(s, s.inputLabel.value) else s
  }

  /**
   * Seeding at most appends the empty entry of the current label, is idempotent, and
   * changes nothing on a chain whose label already has its entry.
   */
  lemma SeedingFacts(s: State)
    ensures Seeding(s).(results := s.results) == s
    ensures Seeding(s).results == s.results
         || (HasLabel(s) && Seeding(s).results == s.results + [(s.inputLabel.value, Entry(s.inputValue, []))])
    ensures Seeded(Seeding(s))
    ensures Seeding(Seeding(s)) == Seeding(s)
    ensures Seeded(s) ==> Seeding(s) == s
  {
    if HasLabel(s) {
      PutFacts(s.results, s.inputLabel.value, Entry(s.inputValue, []));
    }
  }

  /** A call that is a no-op while the chain is skipped, apart from seeding the entry. */
  predicate SkippedOp(op: Op)
  {
    op.CheckOp? || op.SanitizeOp? || op.PeekOp?
  }

  lemma {:induction false} RunSkipped(s: State, ops: seq<Op>)
    requires s.skipped
    requires forall i :: 0 <= i < |ops| ==> SkippedOp(ops[i])
    ensures Run(s, ops) == (s, Ok) || Run(s, ops) == (Seeding(s), Ok)
    decreases |ops|
  {
    if ops != [] {
      var t := Apply(s, ops[0]).0;
      assert Apply(s, ops[0]) == (t, Ok) && (t == s || t == Seeding(s));
      assert forall i :: 0 <= i < |ops[1..]| ==> ops[1..][i] == ops[i + 1];
      SeedingFacts(s);
      RunSkipped(t, ops[1..]);
    }
  }

  /**
   * `optional()` on an undefined, null or empty value turns every following check and
   * transform into a no-op: nothing is recorded, the value is not replaced, and at
   * most the label's missing entry `{value}` is created (as after `clearResults()`,
   * which keeps the label but empties the accumulator). When the label already has
   * its entry, as after `setValue`, the chain is left exactly as it was.
   */
  lemma SkipRecordsNothing(s: State, ops: seq<Op>)
    requires s.inputValue == Undefined || s.inputValue == Null || s.inputValue == Str("")
    requires forall i :: 0 <= i < |ops| ==> SkippedOp(ops[i])
    ensures var (t, st) := Run(s, [OptionalOp] + ops);
      && st == Ok
      && t.(results := s.results) == s.(skipped := true)
      && (t.results == s.results
          || (HasLabel(s) && t.results == s.results + [(s.inputLabel.value, Entry(s.inputValue, []))]))
      && (Seeded(s) ==> t == s.(skipped := true))
  {
    var s1 := s.(skipped := true);
    assert ([OptionalOp] + ops)[1..] == ops;
    RunSkipped(s1, ops);
    SeedingFacts(s1);
  }

  /** A call that is a no-op while the chain is suspended, apart from seeding the entry. */
  predicate InBranch(op: Op)
  {
    op.CheckOp? || op.SanitizeOp? || op.PeekOp? || op.IfOp? || op.WithMessageOp?
    || (op.SetValueOp? && !op.unbail)
  }

  lemma {:induction false} RunSuspended(s: State, ops: seq<Op>)
    requires s.suspended
    requires forall i :: 0 <= i < |ops| ==> InBranch(ops[i])
    ensures Run(s, ops) == (s, Ok) || Run(s, ops) == (Seeding(s), Ok)
    decreases |ops|
  {
    if ops != [] {
      var t := Apply(s, ops[0]).0;
      assert Apply(s, ops[0]) == (t, Ok) && (t == s || t == Seeding(s));
      assert forall i :: 0 <= i < |ops[1..]| ==> ops[1..][i] == ops[i + 1];
      SeedingFacts(s);
      RunSuspended(t, ops[1..]);
    }
  }

  /**
   * `if(c)` with a false condition suspends the chain until the next `endif()`:
   * checks, transforms, messages, new values and further `if`s in between record
   * nothing and replace nothing, and a single `endif()` closes them all. At most the
   * label's missing entry `{value}` is created; when the label already has its
   * entry, as after `setValue`, the chain is left exactly as it was.
   */
  lemma BranchScoping(s: State, condition: Value -> bool, ops: seq<Op>)
    requires !Halted(s) && !condition(s.inputValue)
    requires forall i :: 0 <= i < |ops| ==> InBranch(ops[i])
    ensures var (t, st) := Run(s, [IfOp(condition)] + ops + [EndIfOp]);
      && st == Ok
      && t.(results := s.results) == s
      && (t.results == s.results
          || (HasLabel(s) && t.results == s.results + [(s.inputLabel.value, Entry(s.inputValue, []))]))
      && (Seeded(s) ==> t == s)
  {
    var s1 := s.(suspended := true);
    assert ([IfOp(condition)] + ops + [EndIfOp])[1..] == ops + [EndIfOp];
    RunAppend(s1, ops, [EndIfOp]);
    RunSuspended(s1, ops);
    SeedingFacts(s1);
    SeedingFacts(s);
    assert EndIf(Seeding(s1)) == Seeding(s);
  }

  // ----- Labels -------------------------------------------------------------------

  /**
   * A label is declared once: declaring it again throws, unless `clearResults()`
   * came in between.
   */
  lemma DuplicateLabelRejected(s: State, name: string, v: Value, w: Value, convert: bool)
    requires !Halted(s) && name != "" && name !in Keys(s.results)
    ensures Run(s, [SetValueOp(name, v, false, convert), SetValueOp(name, w, false, convert)]).1
         == Thrown(InvalidLabel(name))
    ensures Run(s, [SetValueOp(name, v, false, convert), ClearResultsOp, SetValueOp(name, w, false, convert)]).1
         == Ok
  {
    var first, again := SetValueOp(name, v, false, convert), SetValueOp(name, w, false, convert);
    SetValueContract(s, name, v, false, convert);
    var t := SetValue(s, name, v, false, convert).0;
    KeysAppend(s.results, [(name, Entry(if convert then Normalise(v) else v, []))]);
    SetValueContract(t, name, w, false, convert);
    RunOk2(s, first, again);
    ClearResultsContract(t, name, w, false, convert);
    RunOk3(s, first, ClearResultsOp, again);
  }

  /** Two calls of which the first does not throw. */
  lemma RunOk2(s: State, a: Op, b: Op)
    requires Apply(s, a).1 == Ok
    ensures Run(s, [a, b]) == Apply(Apply(s, a).0, b)
  {
    RunCons(Apply(s, a).0, b, []);
    RunCons(s, a, [b]);
    assert [a, b] == [a] + [b];
    assert [b] == [b] + [];
  }

  // ----- Transforms ---------------------------------------------------------------

  /** The value after transforms `fs`, each applied to `String` of the previous value. */
  function Chained(fs: seq<string -> Value>, v: Value): Value
    decreases |fs|
  {
    if fs == [] then v else Chained(fs[1..], fs[0](ToText(v)))
  }

  function Transforms(fs: seq<string -> Value>): seq<Op>
  {
    seq(|fs|, i requires 0 <= i < |fs| => SanitizeOp(fs[i]))
  }

  /**
   * Transforms `f1 … fn` on an ungated chain: the input becomes
   * `fn(String(… f1(String(v))))`, the `values` view shows that for the label, the
   * label's outcomes are kept and nothing else in the chain changes.
   */
  lemma {:induction false} TransformsCompose(s: State, fs: seq<string -> Value>)
    requires !Gated(s) && fs != []
    ensures var (t, st) := Run(s, Transforms(fs));
      var k := Key(s.inputLabel);
      && st == Ok
      && t.inputValue == Chained(fs, s.inputValue)
      && Find(ValuesView(t.results), k) == Some(t.inputValue)
      && Find(t.results, k).Some?
      && Find(t.results, k).value.outcomes ==
           (match Find(s.results, k) case Some(e) => e.outcomes case None => [])
      && t.(inputValue := s.inputValue, results := s.results) == s
      && forall k' :: k' != k ==> Find(t.results, k') == Find(s.results, k')
    decreases |fs|
  {
    var k := Key(s.inputLabel);
    SanitizerMethodContract(s, fs[0]);
    var t1 := SanitizerMethod(s, fs[0]);
    assert Transforms(fs)[0] == SanitizeOp(fs[0]);
    assert Transforms(fs)[1..] == Transforms(fs[1..]);
    if |fs| == 1 {
      ValuesViewFind(t1.results, k);
    } else {
      TransformsCompose(t1, fs[1..]);
    }
  }

  // ----- A worked example ---------------------------------------------------------

  /** The entry of `age` once `isInt` has passed and `min` has failed with a message. */
  function AgeEntry(): Entry
  {
    Entry(Str("17"), [("isInt", Outcome(false, None)), ("min", Outcome(true, Some(Text("too young"))))])
  }

  /**
   * `setValue('age', 17).isInt().min().withMessage('too young').bail().max()`, with
   * `isInt` passing and `min`/`max` failing: the number is stored as "17", `min`'s
   * error carries the message, `bail()` then stops `max`, and one error is counted.
   */
  lemma AgeScenario(isInt: Value -> bool, min: Value -> bool, max: Value -> bool)
    requires isInt(Str("17")) && !min(Str("17")) && !max(Str("17"))
    ensures var (t, st) := Run(Initial(), [SetValueOp("age", Num(17), false, true), CheckOp("isInt", isInt),
                                         CheckOp("min", min), WithMessageOp(Text("too young")),
                                         BailOp, CheckOp("max", max)]);
      && st == Ok
      && t.bailed
      && t.results == [("age", AgeEntry())]
      && ErrorTotal(t.results) == 1
  {
    var a, b, c := SetValueOp("age", Num(17), false, true), CheckOp("isInt", isInt), CheckOp("min", min);
    var d, e, f := WithMessageOp(Text("too young")), BailOp, CheckOp("max", max);
    var s2 := AgeValidated(isInt, min);
    var s4 := AgeBailed(s2, max);
    AgeErrors();
    RunAppend(Initial(), [a, b, c], [d, e, f]);
    assert [a, b, c, d, e, f] == [a, b, c] + [d, e, f];
  }

  /** `setValue('age', 17).isInt().min()`. */
  lemma AgeValidated(isInt: Value -> bool, min: Value -> bool) returns (s2: State)
    requires isInt(Str("17")) && !min(Str("17"))
    ensures Run(Initial(), [SetValueOp("age", Num(17), false, true), CheckOp("isInt", isInt), CheckOp("min", min)])
         == (s2, Ok)
    ensures s2 == Initial().(inputLabel := Some("age"), inputValue := Str("17"), lastValidator := Some("min"),
      results := [("age", Entry(Str("17"), [("isInt", Outcome(false, None)), ("min", Outcome(true, None))]))])
  {
    var s1 := AgeDeclared();
    s2 := AgeChecked(s1, isInt, min);
    RunOk3(Initial(), SetValueOp("age", Num(17), false, true), CheckOp("isInt", isInt), CheckOp("min", min));
  }

  /** `.withMessage('too young').bail().max()` after `AgeValidated`. */
  lemma AgeBailed(s2: State, max: Value -> bool) returns (s4: State)
    requires s2 == Initial().(inputLabel := Some("age"), inputValue := Str("17"), lastValidator := Some("min"),
      results := [("age", Entry(Str("17"), [("isInt", Outcome(false, None)), ("min", Outcome(true, None))]))])
    ensures Run(s2, [WithMessageOp(Text("too young")), BailOp, CheckOp("max", max)]) == (s4, Ok)
    ensures s4 == s2.(results := [("age", AgeEntry())], bailed := true)
  {
    AgeMessage(s2);
    var s3 := s2.(results := [("age", AgeEntry())]);
    AgeErrors();
    s4 := Bail(s3);
    assert "age" in Keys(s4.results);
    ValidatorMethodGated(s4, "max", max);
    RunOk3(s2, WithMessageOp(Text("too young")), BailOp, CheckOp("max", max));
  }

  lemma AgeDeclared() returns (s1: State)
    ensures SetValue(Initial(), "age", Num(17), false, true) == (s1, Ok)
    ensures s1 == Initial().(inputLabel := Some("age"), inputValue := Str("17"), results := [("age", Entry(Str("17"), []))])
  {
    assert NatToDec(17) == "17";
    s1 := Initial().(inputLabel := Some("age"), inputValue := Str("17"), results := [("age", Entry(Str("17"), []))]);
  }

  lemma AgeChecked(s1: State, isInt: Value -> bool, min: Value -> bool) returns (s2: State)
    requires s1 == Initial().(inputLabel := Some("age"), inputValue := Str("17"), results := [("age", Entry(Str("17"), []))])
    requires isInt(Str("17")) && !min(Str("17"))
    ensures ValidatorMethod(ValidatorMethod(s1, "isInt", isInt), "min", min) == s2
    ensures s2 == s1.(lastValidator := Some("min"),
      results := [("age", Entry(Str("17"), [("isInt", Outcome(false, None)), ("min", Outcome(true, None))]))])
  {
    var e0 := Entry(Str("17"), []);
    var e1 := AgeRecord(e0, "isInt", false);
    var t1 := s1.(lastValidator := Some("isInt"), results := [("age", e1)]);
    AgeStep(s1, "isInt", isInt, e0, e1);
    var e2 := AgeRecord(e1, "min", true);
    AgeStep(t1, "min", min, e1, e2);
    assert e0.outcomes + [("isInt", Outcome(false, None))] == [("isInt", Outcome(false, None))];
    assert e2.outcomes == [("isInt", Outcome(false, None)), ("min", Outcome(true, None))];
    s2 := ValidatorMethod(t1, "min", min);
  }

  /** A first execution of a check whose name no key of `e` starts with. */
  lemma AgeRecord(e: Entry, name: string, error: bool) returns (e': Entry)
    requires name != "" && name[0] != 'v'
    requires forall i :: 0 <= i < |e.outcomes| ==> e.outcomes[i].0 != "" && e.outcomes[i].0[0] != name[0]
    ensures e' == e.(outcomes := e.outcomes + [(name, Outcome(error, None))])
    ensures Record(e, name, error) == (e', name)
  {
    assert !StartsWith("value", name) by { assert "value"[0] != name[0]; }
    forall i | 0 <= i < |e.outcomes|
      ensures !StartsWith(e.outcomes[i].0, name)
    {
      assert e.outcomes[i].0[0] != name[0];
    }
    FirstExecution(e, name, error);
    e' := e.(outcomes := e.outcomes + [(name, Outcome(error, None))]);
  }

  /** A check executed on the single label `age` of `s`, whose entry is `e`. */
  lemma AgeStep(s: State, name: string, check: Value -> bool, e: Entry, e': Entry)
    requires s.inputLabel == Some("age") && s.results == [("age", e)] && !Gated(s) && !s.invertNext
    requires Record(e, name, !check(s.inputValue)) == (e', name)
    ensures ValidatorMethod(s, name, check) == s.(lastValidator := Some(name), results := [("age", e')])
  {
    assert "age" in Keys(s.results);
    assert Find(s.results, "age") == Some(e);
    assert Put(s.results, "age", e') == [("age", e')] + s.results[1..];
    assert s.results[1..] == [];
  }

  lemma AgeMessage(s2: State)
    requires s2 == Initial().(inputLabel := Some("age"), inputValue := Str("17"), lastValidator := Some("min"),
      results := [("age", Entry(Str("17"), [("isInt", Outcome(false, None)), ("min", Outcome(true, None))]))])
    ensures WithMessage(s2, Text("too young")) == (s2.(results := [("age", AgeEntry())]), Ok)
  {
    var e := s2.results[0].1;
    var os := e.outcomes;
    var o' := Outcome(true, Some(Text("too young")));
    assert Find(s2.results, "age") == Some(e);
    assert os[1..] == [("min", Outcome(true, None))];
    assert os[0].0 != "min";
    assert Find(os, "min") == Find(os[1..], "min") == Some(Outcome(true, None));
    assert os[1..][1..] == [];
    assert Put(os[1..], "min", o') == [("min", o')];
    assert Put(os, "min", o') == [os[0]] + Put(os[1..], "min", o') == AgeEntry().outcomes;
    var e' := e.(outcomes := AgeEntry().outcomes);
    assert s2.results[1..] == [];
    assert Put(s2.results, "age", e') == [("age", e')];
  }

  lemma AgeErrors()
    ensures ErrorTotal([("age", AgeEntry())]) == 1
    ensures Bail(Initial().(inputLabel := Some("age"), inputValue := Str("17"), lastValidator := Some("min"),
      results := [("age", AgeEntry())])).bailed
  {
  }
}
