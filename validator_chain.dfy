/**
 * The class `ValidatorJSChain` (src/index.ts:51-324): a chain of checks and
 * transforms over one labelled value at a time. Each mutating method is proved to
 * produce exactly the state its step function in ChainState describes, and to keep
 * the chain's invariant; the getters are loops proved against the views in
 * Accumulator.
 */
module ValidatorChain {

  import opened Wrappers
  import opened JsValues
  import opened Accumulator
  import opened ChainState

  /** The erroring outcomes of one label, counted (the inner loop of `errorCount`). */
  method CountErrors(os: seq<(string, Outcome)>) returns (n: nat)
    ensures n == |ErrorsIn(os)|
  {
    n := 0;
    var j := 0;
    while j < |os|
      invariant 0 <= j <= |os|
      invariant n + |ErrorsIn(os[j..])| == |ErrorsIn(os)|
    {
      assert os[j..][1..] == os[j + 1..];
      if os[j].1.error {
        n := n + 1;
      }
      j := j + 1;
    }
  }

  /** The erroring outcomes of one label, in order (the inner loop of `errors`). */
  method ErrorsOf(os: seq<(string, Outcome)>) returns (errs: seq<(string, Outcome)>)
    ensures errs == ErrorsIn(os)
  {
    errs := [];
    var j := 0;
    while j < |os|
      invariant 0 <= j <= |os|
      invariant errs + ErrorsIn(os[j..]) == ErrorsIn(os)
    {
      assert os[j..][1..] == os[j + 1..];
      AppendAssoc(errs, if os[j].1.error then [os[j]] else [], ErrorsIn(os[j + 1..]));
      if os[j].1.error {
        errs := errs + [os[j]];
      }
      j := j + 1;
    }
    assert os[j..] == [];
  }

  /** The conversion of `setValue` when `convertToString` is set. */
  method ConvertToString(value: Value) returns (v: Value)
    ensures v == Normalise(value)
  {
    v := value;
    if !Falsy(v) && v.Obj? {
      v := Str(v.json);
    }
    if v != Null && v != Undefined && !v.Str? {
      v := Str(ToText(v));
    }
    if v == Null || v == Undefined {
      v := Str("");
    }
  }

  /**
   * The key under which check `name` stores its next outcome in `entry`
   * (src/index.ts:194-209): the keys matching `^(name)(_d+)?` are counted, `value`
   * among them, and when there are any an outcome under the plain name moves to
   * `<name>_0` and the new key is `<name>_<count>`.
   */
  method NextKey(entry: Entry, name: string) returns (outcomes: seq<(string, Outcome)>, key: string)
    ensures (entry.(outcomes := outcomes), key) == Disambiguate(entry, name)
  {
    outcomes := entry.outcomes;
    var previous := if StartsWith("value", name) then 1 else 0;
    var j := 0;
    while j < |outcomes|
      invariant 0 <= j <= |outcomes|
      invariant previous + CountPrefixed(outcomes[j..], name) == PriorCount(entry, name)
    {
      assert outcomes[j..][1..] == outcomes[j + 1..];
      if StartsWith(outcomes[j].0, name) {
        previous := previous + 1;
      }
      j := j + 1;
    }
    key := name;
    if previous > 0 {
      var first := Find(outcomes, name);
      if first.Some? {
        outcomes := Put(outcomes, Suffixed(name, 0), first.value);
        outcomes := Remove(outcomes, name);
      }
      key := Suffixed(name, previous);
    }
  }

  class ValidatorJSChain {
    // `input`
    var inputLabel: Option<string>
    var inputValue: Value
    // `status`
    var bailed: bool
    var suspended: bool
    var skipped: bool
    var invertNext: bool
    var lastValidator: Option<string>
    var results: ResultMap

    function Snapshot(): State
      reads this
    {
      State(inputLabel, inputValue, bailed, suspended, skipped, invertNext, lastValidator, results)
    }

    ghost predicate Valid()
      reads this
    {
      ChainState.Valid(Snapshot())
    }

    constructor()
      ensures Valid() && Snapshot() == Initial()
    {
      inputLabel, inputValue := None, Undefined;
      bailed, suspended, skipped, invertNext := false, false, false, false;
      lastValidator := None;
      results := [];
    }

    // ----- Getters -------------------------------------------------------------------

    /** `errorCount`: the number of erroring outcomes over all labels. */
    method ErrorCount() returns (n: nat)
      ensures n == ErrorTotal(results)
    {
      n := 0;
      var i := 0;
      while i < |results|
        invariant 0 <= i <= |results|
        invariant n + ErrorTotal(results[i..]) == ErrorTotal(results)
      {
        var count := CountErrors(results[i].1.outcomes);
        assert results[i..][1..] == results[i + 1..];
        n := n + count;
        i := i + 1;
      }
    }

    /** `errors`: for each label with an erroring outcome, its value and those outcomes. */
    method Errors() returns (r: ResultMap)
      ensures r == ErrorsView(results)
    {
      r := [];
      var i := 0;
      while i < |results|
        invariant 0 <= i <= |results|
        invariant r + ErrorsView(results[i..]) == ErrorsView(results)
      {
        var errs := ErrorsOf(results[i].1.outcomes);
        var head := if errs != [] then [(results[i].0, Entry(results[i].1.value, errs))] else [];
        assert results[i..][1..] == results[i + 1..];
        assert ErrorsView(results[i..]) == head + ErrorsView(results[i + 1..]);
        AppendAssoc(r, head, ErrorsView(results[i + 1..]));
        r := r + head;
        i := i + 1;
      }
      assert results[i..] == [];
    }

    /** `values`: every label with its stored value, in label order. */
    method Values() returns (r: seq<(string, Value)>)
      ensures r == ValuesView(results)
    {
      r := [];
      var i := 0;
      while i < |results|
        invariant 0 <= i <= |results|
        invariant r + ValuesView(results[i..]) == ValuesView(results)
      {
        assert results[i..][1..] == results[i + 1..];
        AppendAssoc(r, [(results[i].0, results[i].1.value)], ValuesView(results[i + 1..]));
        r := r + [(results[i].0, results[i].1.value)];
        i := i + 1;
      }
      assert results[i..] == [];
    }

    /** `results`: a shallow copy of the accumulator. */
    method Results() returns (r: ResultMap)
      ensures r == results
    {
      r := results;
    }

    /** `value`: the current value, after transforms and `default`. */
    method CurrentValue() returns (v: Value)
      ensures v == inputValue
    {
      v := inputValue;
    }

    /** `lastValidator`: the key of the last executed check, `null` after `setValue`. */
    method LastValidator() returns (name: Option<string>)
      ensures name == lastValidator
    {
      name := lastValidator;
    }

    /** `peek(executor)`: calls the executor on the current value and changes nothing. */
    method Peek<R>(executor: Value -> R) returns (outcome: R)
      ensures outcome == executor(inputValue)
    {
      outcome := executor(inputValue);
    }

    // ----- Declaring a value ---------------------------------------------------------

    /** `setValue(label, value = '', unbail = false, convertToString = true)`. */
    method SetValue(name: string, value: Value := Str(""), unbail: bool := false, convertToString: bool := true)
      returns (st: Status)
      requires Valid()
      modifies this
      ensures Valid()
      ensures (Snapshot(), st) == ChainState.SetValue(old(Snapshot()), name, value, unbail, convertToString)
    {
      SetValueValid(Snapshot(), name, value, unbail, convertToString);
      if unbail {
        bailed := false;
      }
      if bailed || suspended {
        return Ok;
      }
      skipped := false;
      var v := value;
      if v == Undefined {
        v := Str("");
      }
      st := Declare(name, v, convertToString);
    }

    /** The part of `setValue` past its gate. */
    method Declare(name: string, value: Value, convertToString: bool) returns (st: Status)
      modifies this
      ensures (Snapshot(), st) == ChainState.Declare(old(Snapshot()), name, value, convertToString)
    {
      if name == "" || name in Keys(results) {
        return Thrown(InvalidLabel(name));
      }
      var v := value;
      if convertToString {
        v := ConvertToString(v);
      }
      suspended, lastValidator, invertNext := false, None, false;
      inputLabel, inputValue := Some(name), v;
      results := Put(results, name, Entry(v, []));
      st := Ok;
    }

    // ----- Checks and transforms -----------------------------------------------------

    /**
     * `validatorMethod(executor)`: `fnName` is the executor's `name`, `check` its
     * verdict on the current value.
     */
    method ValidatorMethod(fnName: string, check: Value -> bool)
      requires Valid() && LiteralName(fnName)
      modifies this
      ensures Valid()
      ensures Snapshot() == ChainState.ValidatorMethod(old(Snapshot()), fnName, check)
    {
      ValidatorMethodValid(Snapshot(), fnName, check);
      if inputLabel.None? || inputLabel.value == "" {
        return;
      }
      var lab := inputLabel.value;
      SeedEntry(lab);
      if bailed || suspended || skipped {
        return;
      }
      Execute(lab, fnName, check);
    }

    /** Creates the entry `{value}` of label `lab` when it is missing. */
    method SeedEntry(lab: string)
      modifies this
      ensures Snapshot() == ChainState.SeedEntry(old(Snapshot()), lab)
    {
      if lab !in Keys(results) {
        results := Put(results, lab, Entry(inputValue, []));
      }
    }

    /** Runs the check and stores its outcome under a fresh key in the entry of `lab`. */
    method Execute(lab: string, fnName: string, check: Value -> bool)
      requires LiteralName(fnName)
      modifies this
      ensures Snapshot() == ChainState.Execute(old(Snapshot()), lab, fnName, check)
    {
      var found := Find(results, lab);
      if found.None? {
        return;
      }
      var entry := found.value;
      var os, key := NextKey(entry, ExecutorName(fnName));
      lastValidator := Some(key);
      var verdict := check(inputValue);
      os := Put(os, key, Outcome(if invertNext then verdict else !verdict, None));
      results := Put(results, lab, entry.(outcomes := os));
      invertNext := false;
    }

    /** `sanitizerMethod(executor)`: `transform` receives `String(value)`. */
    method SanitizerMethod(transform: string -> Value)
      requires Valid()
      modifies this
      ensures Valid()
      ensures Snapshot() == ChainState.SanitizerMethod(old(Snapshot()), transform)
    {
      ghost var s0 := Snapshot();
      SanitizerMethodValid(s0, transform);
      if bailed || suspended || skipped {
        return;
      }
      var v := transform(ToText(inputValue));
      inputValue := v;
      var k := Key(inputLabel);
      var prev := Find(results, k);
      var e := if prev.Some? then prev.value.(value := v) else Entry(v, []);
      results := Put(results, k, e);
    }

    // ----- Modifiers -----------------------------------------------------------------

    /** `default(value)`. */
    method Default(value: Value) returns (st: Status)
      requires Valid()
      modifies this
      ensures Valid()
      ensures (Snapshot(), st) == ChainState.Default(old(Snapshot()), value)
    {
      ghost var s0 := Snapshot();
      DefaultValid(s0, value);
      st := Ok;
      if Falsy(inputValue) {
        inputValue := if value == Null then Null else Str(ToText(value));
        var k := Key(inputLabel);
        var e := Find(results, k);
        if e.None? {
          return Thrown(TypeError);
        }
        results := Put(results, k, e.value.(value := value));
      }
    }

    /** `optional()`. */
    method Optional()
      requires Valid()
      modifies this
      ensures Valid()
      ensures Snapshot() == ChainState.Optional(old(Snapshot()))
    {
      if inputValue == Undefined || inputValue == Null || inputValue == Str("") {
        skipped := true;
      }
    }

    /** `not()`. */
    method Not()
      requires Valid()
      modifies this
      ensures Valid()
      ensures Snapshot() == ChainState.Not(old(Snapshot()))
    {
      invertNext := true;
    }

    /** `bail()`. */
    method Bail()
      requires Valid()
      modifies this
      ensures Valid()
      ensures Snapshot() == ChainState.Bail(old(Snapshot()))
    {
      var count := ErrorCount();
      if count > 0 {
        bailed := true;
        suspended := false;
      }
    }

    /** `unbail()`. */
    method Unbail()
      requires Valid()
      modifies this
      ensures Valid()
      ensures Snapshot() == ChainState.Unbail(old(Snapshot()))
    {
      bailed := false;
    }

    /** `if(condition)`. */
    method If(condition: Value -> bool)
      requires Valid()
      modifies this
      ensures Valid()
      ensures Snapshot() == ChainState.If(old(Snapshot()), condition)
    {
      if bailed || suspended {
        return;
      }
      if !condition(inputValue) {
        suspended := true;
      }
    }

    /** `endif()`. */
    method EndIf()
      requires Valid()
      modifies this
      ensures Valid()
      ensures Snapshot() == ChainState.EndIf(old(Snapshot()))
    {
      suspended := false;
    }

    /** `withMessage(message)`. */
    method WithMessage(m: Message) returns (st: Status)
      requires Valid()
      modifies this
      ensures Valid()
      ensures (Snapshot(), st) == ChainState.WithMessage(old(Snapshot()), m)
    {
      ghost var s0 := Snapshot();
      WithMessageValid(s0, m);
      st := Ok;
      if bailed || suspended || lastValidator.None? || lastValidator.value == ""
         || inputLabel.None? || inputLabel.value == "" {
        return;
      }
      var lab, lv := inputLabel.value, lastValidator.value;
      var e := Find(results, lab);
      if e.None? {
        return Thrown(TypeError);
      }
      var o := Find(e.value.outcomes, lv);
      if o.None? {
        return Thrown(TypeError);
      }
      if o.value.error {
        var outcomes := Put(e.value.outcomes, lv, o.value.(message := Some(m)));
        results := Put(results, lab, e.value.(outcomes := outcomes));
      }
    }

    // ----- The accumulator -----------------------------------------------------------

    /** `addResultValues(values, overwrite = false)`: the `values` view is read anew per key. */
    method AddResultValues(vals: seq<(string, Value)>, overwrite: bool := false)
      requires Valid()
      modifies this
      ensures Valid()
      ensures Snapshot() == ChainState.AddResultValues(old(Snapshot()), vals, overwrite)
    {
      ghost var s0 := Snapshot();
      AddResultValuesValid(s0, vals, overwrite);
      var i := 0;
      while i < |vals|
        invariant 0 <= i <= |vals|
        invariant Snapshot() == s0.(results := results)
        invariant AddValues(results, vals[i..], overwrite) == AddValues(s0.results, vals, overwrite)
      {
        assert vals[i..][1..] == vals[i + 1..];
        AddResultValue(vals[i].0, vals[i].1, overwrite);
        i := i + 1;
      }
    }

    /** One key of `addResultValues`: written when `overwrite` is set or its stored value is falsy. */
    method AddResultValue(k: string, v: Value, overwrite: bool)
      modifies this
      ensures Snapshot() == old(Snapshot()).(results := results)
      ensures results == AddValues(old(results), [(k, v)], overwrite)
    {
      var current := Values();
      ValuesViewFind(results, k);
      var stored := Find(current, k);
      if overwrite || stored.None? || Falsy(stored.value) {
        results := Put(results, k, Entry(v, []));
      }
    }

    /** `clearResults()`. */
    method ClearResults()
      requires Valid()
      modifies this
      ensures Valid()
      ensures Snapshot() == ChainState.ClearResults(old(Snapshot()))
    {
      bailed, suspended, skipped, invertNext := false, false, false, false;
      lastValidator := None;
      results := [];
    }
  }
}
