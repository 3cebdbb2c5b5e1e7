/**
 * The state of a `ValidatorJSChain` (its `input` and `status` fields,
 * src/index.ts:44-61) and, for each public operation, the state it leads to.
 * These functions are the specification the class in validator_chain.dfy is
 * proved against; the lemmas below state what each operation promises.
 */
module ChainState {

  import opened Wrappers
  import opened JsValues
  import opened Accumulator

  /** What an operation throws. */
  datatype Error =
    | InvalidLabel(name: string)   // `Invalid validation chain label: "<label>"`
    | TypeError                    // reading a property of `undefined`

  datatype Status = Ok | Thrown(error: Error)

  /**
   * `input.label`, `input.value` and the fields of `status`. An absent
   * `status.results` is the empty accumulator.
   */
  datatype State = State(
    inputLabel: Option<string>,
    inputValue: Value,
    bailed: bool,
    suspended: bool,
    skipped: bool,
    invertNext: bool,
    lastValidator: Option<string>,
    results: ResultMap)

  /** A freshly constructed chain. */
  function Initial(): State
  {
    State(None, Undefined, false, false, false, false, None, [])
  }

  /** The property name `results[input.label as string]` uses: `null` reads as "null". */
  function Key(l: Option<string>): string
  {
    match l
    case None => "null"
    case Some(name) => name
  }

  /** `!!this.input.label`. */
  predicate HasLabel(s: State)
  {
    s.inputLabel.Some? && s.inputLabel.value != ""
  }

  /** The gate of `setValue`, `if` and `withMessage`. */
  predicate Halted(s: State)
  {
    s.bailed || s.suspended
  }

  /** The gate of checks and transforms. */
  predicate Gated(s: State)
  {
    s.bailed || s.suspended || s.skipped
  }

  /**
   * What every reachable state satisfies: labels are distinct, entries well formed,
   * and a recorded `lastValidator` comes with a current label that has an entry.
   * The outcome it names may be gone: `addResultValues` with `overwrite` replaces
   * the entry wholesale, and `withMessage` then throws.
   */
  predicate Valid(s: State)
  {
    && UniqueKeys(s.results)
    && (forall p :: p in s.results ==> WellFormed(p.1))
    && (s.lastValidator.Some? ==>
         s.lastValidator.value != "" && HasLabel(s) && s.inputLabel.value in Keys(s.results))
  }

  /** `executor.name || 'custom'`. */
  function ExecutorName(fnName: string): (name: string)
    ensures name != ""
  {
    if fnName == "" then "custom" else fnName
  }

  /**
   * A function name the pattern `'^(' + name + ')(_d+)?'` reads literally: no
   * regular-expression metacharacter, and not the reserved key `value`.
   */
  predicate LiteralName(fnName: string)
  {
    ExecutorName(fnName) != "value" && forall c :: c in fnName ==> c !in "\\^$.|?*+()[]{}"
  }

  // ----- Operations ---------------------------------------------------------------

  /**
   * `setValue(label, value, unbail, convertToString)` (src/index.ts:147-176). The
   * default `value = ''` also replaces an explicitly passed `undefined`.
   */
  function SetValue(s: State, name: string, v: Value, unbail: bool, convertToString: bool): (State, Status)
  {
    var s1 := if unbail then s.(bailed := false) else s;
    if Halted(s1) then (s1, Ok) else Declare(s1.(skipped := false), name, DefaultedValue(v), convertToString)
  }

  /** The value parameter after its default `''` is applied to `undefined`. */
  function DefaultedValue(v: Value): Value
  {
    if v == Undefined then Str("") else v
  }

  /** The part of `setValue` past its gate: a fresh, non-empty label starts a new value. */
  function Declare(s: State, name: string, v: Value, convertToString: bool): (State, Status)
  {
    if name == "" || name in Keys(s.results) then (s, Thrown(InvalidLabel(name)))
    else
      var value := if convertToString then Normalise(v) else v;
      (s.(suspended := false, lastValidator := None, invertNext := false,
          inputLabel := Some(name), inputValue := value,
          results := Put(s.results, name, Entry(value, []))),
       Ok)
  }

  /** `validatorMethod(executor)`, with the executor's name and its verdict on a value (src/index.ts:179-222). */
  function ValidatorMethod(s: State, fnName: string, check: Value -> bool): State
  {
    if !HasLabel(s) then s
    else
      var s1 := SeedEntry(s, s.inputLabel.value);
      if Gated(s1) then s1 else Execute(s1, s.inputLabel.value, fnName, check)
  }

  /** Creates the entry `{value}` of label `l` when it is missing. */
  function SeedEntry(s: State, l: string): State
  {
    if l in Keys(s.results) then s else s.(results := Put(s.results, l, Entry(s.inputValue, [])))
  }

  /** Runs the check on the current value and stores its outcome in the entry of label `l`. */
  function Execute(s: State, l: string, fnName: string, check: Value -> bool): State
  {
    match Find(s.results, l)
    case None => s
    case Some(entry) =>
      var verdict := check(s.inputValue);
      var (e, key) := Record(entry, ExecutorName(fnName), if s.invertNext then verdict else !verdict);
      s.(results := Put(s.results, l, e), lastValidator := Some(key), invertNext := false)
  }

  /** `sanitizerMethod(executor)`: the executor receives `String(value)` (src/index.ts:225-238). */
  function SanitizerMethod(s: State, transform: string -> Value): State
  {
    if Gated(s) then s
    else
      var v := transform(ToText(s.inputValue));
      var k := Key(s.inputLabel);
      var e := match Find(s.results, k)
        case Some(prev) => prev.(value := v)
        case None => Entry(v, []);
      s.(inputValue := v, results := Put(s.results, k, e))
  }

  /**
   * `default(value)` (src/index.ts:241-247): only for a falsy current value; the
   * input gets `String(value)` (or `null`), the accumulator the raw value. It throws
   * a TypeError, after changing the input, when the label has no entry.
   */
  function Default(s: State, v: Value): (State, Status)
  {
    if !Falsy(s.inputValue) then (s, Ok)
    else
      var s1 := s.(inputValue := if v == Null then Null else Str(ToText(v)));
      var k := Key(s.inputLabel);
      match Find(s1.results, k)
      case None => (s1, Thrown(TypeError))
      case Some(e) => (s1.(results := Put(s1.results, k, e.(value := v))), Ok)
  }

  /** `optional()` (src/index.ts:250-254). */
  function Optional(s: State): State
  {
    if s.inputValue == Undefined || s.inputValue == Null || s.inputValue == Str("")
    then s.(skipped := true)
    else s
  }

  /** `not()` (src/index.ts:258-261). */
  function Not(s: State): State
  {
    s.(invertNext := true)
  }

  /** `bail()` (src/index.ts:264-270). */
  function Bail(s: State): State
  {
    if ErrorTotal(s.results) > 0 then s.(bailed := true, suspended := false) else s
  }

  /** `unbail()` (src/index.ts:273-276). */
  function Unbail(s: State): State
  {
    s.(bailed := false)
  }

  /** `if(condition)` (src/index.ts:280-284). */
  function If(s: State, condition: Value -> bool): State
  {
    if Halted(s) then s
    else if !condition(s.inputValue) then s.(suspended := true)
    else s
  }

  /** `endif()` (src/index.ts:287-290). */
  function EndIf(s: State): State
  {
    s.(suspended := false)
  }

  /**
   * `withMessage(message)` (src/index.ts:293-308): reading the record of
   * `lastValidator` throws a TypeError when it is missing.
   */
  function WithMessage(s: State, m: Message): (State, Status)
  {
    if Halted(s) || s.lastValidator.None? || s.lastValidator.value == "" || !HasLabel(s) then (s, Ok)
    else
      var l, lv := s.inputLabel.value, s.lastValidator.value;
      match Find(s.results, l)
      case None => (s, Thrown(TypeError))
      case Some(e) =>
        match Find(e.outcomes, lv)
        case None => (s, Thrown(TypeError))
        case Some(o) =>
          if o.error
          then (s.(results := Put(s.results, l, e.(outcomes := Put(e.outcomes, lv, o.(message := Some(m)))))), Ok)
          else (s, Ok)
  }

  /** `addResultValues(values, overwrite)` (src/index.ts:133-144). */
  function AddResultValues(s: State, vals: seq<(string, Value)>, overwrite: bool): State
  {
    s.(results := AddValues(s.results, vals, overwrite))
  }

  /** `clearResults()` (src/index.ts:126-129): resets `status`, keeps `input`. */
  function ClearResults(s: State): State
  {
    Initial().(inputLabel := s.inputLabel, inputValue := s.inputValue)
  }

  // ----- What the operations promise ----------------------------------------------

  /**
   * `setValue`: `unbail` clears `bailed` before the gate; a halted chain changes
   * nothing else; otherwise `skipped` is cleared even when the call throws, it throws
   * exactly for an empty or already present label, and on success the input is
   * replaced, the per-value flags are reset and only the new label's entry is added.
   */
  lemma SetValueContract(s: State, name: string, v: Value, unbail: bool, convertToString: bool)
    ensures var (t, st) := SetValue(s, name, v, unbail, convertToString);
      var s1 := s.(bailed := s.bailed && !unbail);
      var v0 := if v == Undefined then Str("") else v;
      var value := if convertToString then Normalise(v0) else v0;
      && (Halted(s1) ==> t == s1 && st == Ok)
      && (!Halted(s1) ==>
        && (st.Thrown? <==> name == "" || name in Keys(s.results))
        && (st.Thrown? ==> st.error == InvalidLabel(name) && t == s1.(skipped := false))
        && (st.Ok? ==>
          && t.inputLabel == Some(name) && t.inputValue == value
          && !t.bailed && !t.suspended && !t.skipped && !t.invertNext && t.lastValidator == None
          && t.results == s.results + [(name, Entry(value, []))]
          && Find(t.results, name) == Some(Entry(value, []))
          && forall k :: k != name ==> Find(t.results, k) == Find(s.results, k)))
  {
    var v0 := DefaultedValue(v);
    PutFacts(s.results, name, Entry(if convertToString then Normalise(v0) else v0, []));
  }

  /**
   * Passing `undefined` for the value is the same call as omitting it: whether or
   * not the value is converted, the label is declared with `''`.
   */
  lemma SetValueUndefined(s: State, name: string, unbail: bool, convertToString: bool)
    ensures SetValue(s, name, Undefined, unbail, convertToString) == SetValue(s, name, Str(""), unbail, convertToString)
    ensures var (t, st) := SetValue(s, name, Undefined, unbail, convertToString);
      st.Ok? && !Halted(s.(bailed := s.bailed && !unbail)) ==>
        t.inputValue == Str("") && Find(t.results, name) == Some(Entry(Str(""), []))
  {
    SetValueContract(s, name, Undefined, unbail, convertToString);
  }

  /**
   * A check on a chain without a label changes nothing; on a bailed, suspended or
   * skipped chain it only seeds the label's entry with the current value when it is
   * missing. In both cases `invertNext` survives.
   */
  lemma ValidatorMethodGated(s: State, fnName: string, check: Value -> bool)
    requires !HasLabel(s) || Gated(s)
    ensures var t := ValidatorMethod(s, fnName, check);
      && t.(results := s.results) == s
      && t.invertNext == s.invertNext
      && t.results ==
        if !HasLabel(s) || s.inputLabel.value in Keys(s.results) then s.results
        else s.results + [(s.inputLabel.value, Entry(s.inputValue, []))]
  {
    if HasLabel(s) {
      PutFacts(s.results, s.inputLabel.value, Entry(s.inputValue, []));
    }
  }

  /**
   * An executed check stores `error = !verdict`, or `error = verdict` after `not()`,
   * under a key that extends its name; that key becomes `lastValidator`,
   * `invertNext` is consumed, the value is untouched and no other label changes.
   */
  lemma ValidatorMethodRecords(s: State, fnName: string, check: Value -> bool)
    requires Valid(s) && LiteralName(fnName)
    requires HasLabel(s) && !Gated(s)
    ensures var t := ValidatorMethod(s, fnName, check);
      var l := s.inputLabel.value;
      var verdict := check(s.inputValue);
      var err := if s.invertNext then verdict else !verdict;
      var before := match Find(s.results, l) case Some(e) => e case None => Entry(s.inputValue, []);
      && t.lastValidator == Some(Record(before, ExecutorName(fnName), err).1)
      && StartsWith(t.lastValidator.value, ExecutorName(fnName))
      && Find(t.results, l) == Some(Record(before, ExecutorName(fnName), err).0)
      && Find(Find(t.results, l).value.outcomes, t.lastValidator.value) == Some(Outcome(err, None))
      && Find(t.results, l).value.value == before.value
      && !t.invertNext
      && t.(results := s.results, lastValidator := s.lastValidator, invertNext := s.invertNext) == s
      && forall k :: k != l ==> Find(t.results, k) == Find(s.results, k)
  {
    var l := s.inputLabel.value;
    var before := SeededEntry(s, l);
    var s1 := SeedEntry(s, l);
    var verdict := check(s.inputValue);
    var err := if s.invertNext then verdict else !verdict;
    RecordStores(before, ExecutorName(fnName), err);
    PutFacts(s1.results, l, Record(before, ExecutorName(fnName), err).0);
  }

  /**
   * Seeding keys the current label's entry (its old one, or `{value}`), keeps the
   * labels distinct and every entry well formed, and touches no other label.
   */
  lemma SeededEntry(s: State, l: string) returns (before: Entry)
    requires Valid(s)
    ensures before == match Find(s.results, l) case Some(e) => e case None => Entry(s.inputValue, [])
    ensures var s1 := SeedEntry(s, l);
      && Find(s1.results, l) == Some(before)
      && WellFormed(before)
      && Valid(s1)
      && Keys(s1.results) == Keys(s.results) + {l}
      && forall k :: k != l ==> Find(s1.results, k) == Find(s.results, k)
  {
    before := match Find(s.results, l) case Some(e) => e case None => Entry(s.inputValue, []);
    if Find(s.results, l).Some? {
      assert (l, before) in s.results;
    } else {
      PutFacts(s.results, l, before);
    }
  }

  lemma ValidatorMethodValid(s: State, fnName: string, check: Value -> bool)
    requires Valid(s) && LiteralName(fnName)
    ensures Valid(ValidatorMethod(s, fnName, check))
  {
    if HasLabel(s) {
      var l := s.inputLabel.value;
      var before := SeededEntry(s, l);
      var s1 := SeedEntry(s, l);
      if !Gated(s1) {
        var verdict := check(s.inputValue);
        var err := if s.invertNext then verdict else !verdict;
        RecordStores(before, ExecutorName(fnName), err);
        var e := Record(before, ExecutorName(fnName), err).0;
        PutFacts(s1.results, l, e);
        forall p | p in Put(s1.results, l, e)
          ensures WellFormed(p.1)
        {
          assert p == (l, e) || p in s1.results;
        }
      }
    }
  }

  /**
   * An ungated transform replaces the input and the label's stored value with
   * `transform(String(value))` and keeps every outcome of the label, `lastValidator`
   * and `invertNext`; a gated one changes nothing.
   */
  lemma SanitizerMethodContract(s: State, transform: string -> Value)
    ensures var t := SanitizerMethod(s, transform);
      var k := Key(s.inputLabel);
      && (Gated(s) ==> t == s)
      && (!Gated(s) ==>
        && t.inputValue == transform(ToText(s.inputValue))
        && Find(t.results, k).Some?
        && Find(t.results, k).value.value == t.inputValue
        && Find(t.results, k).value.outcomes ==
          (match Find(s.results, k) case Some(e) => e.outcomes case None => [])
        && t.(inputValue := s.inputValue, results := s.results) == s
        && forall k' :: k' != k ==> Find(t.results, k') == Find(s.results, k'))
  {
    if !Gated(s) {
      var k := Key(s.inputLabel);
      var v := transform(ToText(s.inputValue));
      var e := match Find(s.results, k) case Some(prev) => prev.(value := v) case None => Entry(v, []);
      PutFacts(s.results, k, e);
    }
  }

  lemma SanitizerMethodValid(s: State, transform: string -> Value)
    requires Valid(s)
    ensures Valid(SanitizerMethod(s, transform))
  {
    if !Gated(s) {
      var k := Key(s.inputLabel);
      var v := transform(ToText(s.inputValue));
      var e := match Find(s.results, k) case Some(prev) => prev.(value := v) case None => Entry(v, []);
      if Find(s.results, k).Some? {
        assert (k, Find(s.results, k).value) in s.results;
      }
      PutFacts(s.results, k, e);
      forall p | p in Put(s.results, k, e)
        ensures WellFormed(p.1)
      {
        assert p == (k, e) || p in s.results;
      }
    }
  }

  /**
   * `default` is not gated: for a falsy input it sets the input to `String(value)`
   * (or `null`) and the stored value to the raw value, throwing when the label has no
   * entry; for a truthy input it changes nothing. No flag, label or `lastValidator`
   * moves in either case.
   */
  lemma DefaultContract(s: State, v: Value)
    ensures var (t, st) := Default(s, v);
      var k := Key(s.inputLabel);
      && (!Falsy(s.inputValue) ==> t == s && st == Ok)
      && (Falsy(s.inputValue) ==>
        && t.inputValue == (if v == Null then Null else Str(ToText(v)))
        && (st.Thrown? <==> k !in Keys(s.results))
        && (st.Thrown? ==> st.error == TypeError && t.results == s.results)
        && (st.Ok? ==> Find(t.results, k) == Some(Find(s.results, k).value.(value := v)))
        && t.(inputValue := s.inputValue, results := s.results) == s
        && forall k' :: k' != k ==> Find(t.results, k') == Find(s.results, k'))
  {
    var k := Key(s.inputLabel);
    if Falsy(s.inputValue) && Find(s.results, k).Some? {
      PutFacts(s.results, k, Find(s.results, k).value.(value := v));
    }
  }

  lemma DefaultValid(s: State, v: Value)
    requires Valid(s)
    ensures Valid(Default(s, v).0)
  {
    var k := Key(s.inputLabel);
    if Falsy(s.inputValue) && Find(s.results, k).Some? {
      var e := Find(s.results, k).value.(value := v);
      assert (k, Find(s.results, k).value) in s.results;
      PutFacts(s.results, k, e);
      forall p | p in Put(s.results, k, e)
        ensures WellFormed(p.1)
      {
        assert p == (k, e) || p in s.results;
      }
    }
  }

  /**
   * `bail` halts the chain exactly when some label holds an erroring outcome
   * (or it was bailed already); a new or repeated bail clears the suspension, and
   * without an error the call changes nothing at all.
   */
  lemma BailContract(s: State)
    ensures var t := Bail(s);
      && (t.bailed <==>
           (s.bailed ||
            exists i, j :: 0 <= i < |s.results| && 0 <= j < |s.results[i].1.outcomes| && s.results[i].1.outcomes[j].1.error))
      && (t.bailed && !s.bailed ==> !t.suspended)
      && t.(bailed := s.bailed, suspended := s.suspended) == s
      && (ErrorTotal(s.results) == 0 ==> t == s)
      && (ErrorTotal(s.results) > 0 ==> t == s.(bailed := true, suspended := false))
  {
    ErrorTotalPositive(s.results);
  }

  /**
   * `optional` marks the value skipped exactly when it is undefined, null or the empty
   * string (other falsy values such as `false` or `0` are still checked); it leaves
   * `skipped` as it was otherwise and changes nothing else.
   */
  lemma OptionalContract(s: State)
    ensures var t := Optional(s);
      && (t.skipped <==> s.skipped || s.inputValue in {Undefined, Null, Str("")})
      && t.(skipped := s.skipped) == s
      && (t.skipped && !s.skipped ==> Falsy(s.inputValue))
  {
  }

  /**
   * `if(condition)` does nothing while bailed or suspended; otherwise it suspends the
   * chain exactly when the condition is false on the current value. It has no depth:
   * one `endif()` clears the suspension however many `if`s set it.
   */
  lemma IfContract(s: State, c1: Value -> bool, c2: Value -> bool)
    ensures var t := If(s, c1);
      && (Halted(s) ==> t == s)
      && (t.suspended <==> s.suspended || (!s.bailed && !c1(s.inputValue)))
      && t.(suspended := s.suspended) == s
    ensures !EndIf(If(If(s, c1), c2)).suspended
  {
  }

  /**
   * `not`, `unbail` and `endif` set or clear their one flag whatever the state, and
   * change nothing else; `unbail` only lifts the bail, it does not end a suspension.
   */
  lemma FlagModifiers(s: State)
    ensures Not(s).invertNext && Not(s).(invertNext := s.invertNext) == s
    ensures !Unbail(s).bailed && Unbail(s).(bailed := s.bailed) == s
    ensures !EndIf(s).suspended && EndIf(s).(suspended := s.suspended) == s
    ensures Halted(Unbail(s)) <==> s.suspended
  {
  }

  /**
   * `withMessage` sets the message of the `lastValidator` outcome of the current label
   * only when that outcome is an error and the chain is not bailed or suspended
   * (skipping does not matter); nothing else changes. A missing outcome throws.
   */
  lemma WithMessageContract(s: State, m: Message)
    requires Valid(s)
    ensures var (t, st) := WithMessage(s, m);
      && t.(results := s.results) == s
      && (Halted(s) || s.lastValidator.None? ==> t == s && st == Ok)
      && (!Halted(s) && s.lastValidator.Some? ==>
        var l, lv := s.inputLabel.value, s.lastValidator.value;
        var e := Find(s.results, l).value;
        && (st.Thrown? <==> lv !in Keys(e.outcomes))
        && (st.Thrown? ==> t == s && st.error == TypeError)
        && (st.Ok? && Find(e.outcomes, lv).value.error ==>
              Find(t.results, l) == Some(e.(outcomes := Put(e.outcomes, lv, Find(e.outcomes, lv).value.(message := Some(m))))))
        && (st.Ok? && !Find(e.outcomes, lv).value.error ==> t == s)
        && forall k :: k != l ==> Find(t.results, k) == Find(s.results, k))
  {
    if !Halted(s) && s.lastValidator.Some? {
      WithMessageAttached(s, m);
    }
  }

  /** The case of `withMessage` that has a validator to attach the message to. */
  lemma WithMessageAttached(s: State, m: Message)
    requires Valid(s) && !Halted(s) && s.lastValidator.Some?
    ensures var (t, st) := WithMessage(s, m);
      var l, lv := s.inputLabel.value, s.lastValidator.value;
      var e := Find(s.results, l).value;
      && Find(s.results, l).Some?
      && t.(results := s.results) == s
      && (st.Thrown? <==> lv !in Keys(e.outcomes))
      && (st.Thrown? ==> t == s && st.error == TypeError)
      && (st.Ok? && Find(e.outcomes, lv).value.error ==>
            Find(t.results, l) == Some(e.(outcomes := Put(e.outcomes, lv, Find(e.outcomes, lv).value.(message := Some(m))))))
      && (st.Ok? && !Find(e.outcomes, lv).value.error ==> t == s)
      && forall k :: k != l ==> Find(t.results, k) == Find(s.results, k)
  {
    var l, lv := s.inputLabel.value, s.lastValidator.value;
    var e := Find(s.results, l).value;
    var os := Find(e.outcomes, lv);
    var (t, st) := WithMessage(s, m);
    if os.None? {
      assert t == s && st.Thrown?;
    } else if !os.value.error {
      assert t == s && st.Ok?;
    } else {
      var e' := e.(outcomes := Put(e.outcomes, lv, os.value.(message := Some(m))));
      assert t == s.(results := Put(s.results, l, e')) && st.Ok?;
      PutFacts(s.results, l, e');
    }
  }

  lemma WithMessageValid(s: State, m: Message)
    requires Valid(s)
    ensures Valid(WithMessage(s, m).0)
  {
    var (t, st) := WithMessage(s, m);
    if t != s {
      var l, lv := s.inputLabel.value, s.lastValidator.value;
      var e := Find(s.results, l).value;
      assert (l, e) in s.results;
      var o := Find(e.outcomes, lv).value;
      var e' := e.(outcomes := Put(e.outcomes, lv, o.(message := Some(m))));
      PutFacts(e.outcomes, lv, o.(message := Some(m)));
      assert WellFormed(e');
      PutFacts(s.results, l, e');
      forall p | p in Put(s.results, l, e')
        ensures WellFormed(p.1)
      {
        assert p == (l, e') || p in s.results;
      }
    }
  }

  lemma AddResultValuesValid(s: State, vals: seq<(string, Value)>, overwrite: bool)
    requires Valid(s)
    ensures Valid(AddResultValues(s, vals, overwrite))
  {
    AddValuesPreserves(s.results, vals, overwrite);
  }

  /**
   * `clearResults` empties the accumulator and resets every flag but keeps the input,
   * so after it any non-empty label can be declared again.
   */
  lemma ClearResultsContract(s: State, name: string, v: Value, unbail: bool, convertToString: bool)
    ensures var t := ClearResults(s);
      && Valid(t)
      && t.inputLabel == s.inputLabel && t.inputValue == s.inputValue
      && t.results == [] && !Gated(t) && !t.invertNext && t.lastValidator == None
      && (SetValue(t, name, v, unbail, convertToString).1 == Ok <==> name != "")
  {
  }

  lemma SetValueValid(s: State, name: string, v: Value, unbail: bool, convertToString: bool)
    requires Valid(s)
    ensures Valid(SetValue(s, name, v, unbail, convertToString).0)
  {
    var s1 := if unbail then s.(bailed := false) else s;
    if !Halted(s1) {
      DeclareValid(s1.(skipped := false), name, DefaultedValue(v), convertToString);
    }
  }

  lemma DeclareValid(s: State, name: string, v: Value, convertToString: bool)
    requires Valid(s)
    ensures Valid(Declare(s, name, v, convertToString).0)
  {
    if name != "" && name !in Keys(s.results) {
      var value := if convertToString then Normalise(v) else v;
      StoreKeepsValid(s.results, name, Entry(value, []));
      var t := Declare(s, name, v, convertToString).0;
      assert t.results == Put(s.results, name, Entry(value, []));
    }
  }

  /** Storing a well-formed entry keeps the labels distinct and every entry well formed. */
  lemma StoreKeepsValid(rs: ResultMap, l: string, e: Entry)
    requires UniqueKeys(rs) && (forall p :: p in rs ==> WellFormed(p.1))
    requires WellFormed(e)
    ensures var r := Put(rs, l, e);
      && UniqueKeys(r)
      && (forall p :: p in r ==> WellFormed(p.1))
      && Keys(r) == Keys(rs) + {l}
  {
    PutFacts(rs, l, e);
    forall p | p in Put(rs, l, e)
      ensures WellFormed(p.1)
    {
      assert p == (l, e) || p in rs;
    }
  }
}
