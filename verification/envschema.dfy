/**
 * The environment-schema validator: it checks the process environment
 * against `manifests/env.schema.json`, which lists `required` variable names
 * and, under `vars`, an optional `pattern` and `type` per variable.
 *
 * The schema arrives already read and parsed. The environment is a map from
 * names to values; `re.match` and Python's `int()` are parameters.
 */
module EnvSchema {
  import opened Wrappers
  import opened JsonValue
  import opened Text

  type Env = map<string, string>

  /**
   * `re.match(pattern, value)`: `Some(true)` when the pattern matches at the
   * start of the value, `Some(false)` when it does not, `None` when the
   * pattern does not compile (Python raises).
   */
  type Matcher = (string, string) -> Option<bool>

  /** Whether Python's `int(value)` accepts the string. */
  type IntTest = string -> bool

  /** What the snapshot holds at the schema path. */
  datatype Schema =
    | Absent
    | Unloadable
    | Loaded(json: Value)

  /** One entry of the returned list of warnings. */
  datatype Issue =
    | RequiredMissing(name: string)
    | PatternMismatch(name: string, pattern: string)
    | NotInteger(name: string)
    | NotBoolean(name: string)

  /** Why validation raised instead of returning a list. */
  datatype SchemaError =
    | SchemaUnloadable
    | SchemaNotObject
    | RequiredNotList
    | VarsNotObject
    | RequiredNameNotString(value: Value)
    | PatternNotString(name: string)
    | PatternInvalid(name: string, pattern: string)

  /** The spellings a `boolean` variable may take, after lower-casing. */
  const BooleanWords: set<string> := {"true", "false", "1", "0", "yes", "no"}

  /** A required variable is reported when it is absent or empty. */
  predicate Unset(env: Env, name: string) {
    name !in env || env[name] == ""
  }

  /** `schema.get("required", [])`. */
  function RequiredOf(json: Value): Value {
    if json.Map? then GetOr(json.members, Str("required"), List([])) else List([])
  }

  /** `schema.get("vars", {})`. */
  function VarsOf(json: Value): Value {
    if json.Map? then GetOr(json.members, Str("vars"), Map([])) else Map([])
  }

  // ---------------------------------------------------------------------------
  // Required variables
  // ---------------------------------------------------------------------------

  /** Position `i` of the required list names a variable that is unset. */
  predicate MissingAt(names: seq<Value>, env: Env, i: nat)
    requires i < |names|
  {
    names[i].Str? && Unset(env, names[i].s)
  }

  /**
   * The loop over `required`: one issue per unset name, in list order; the
   * first non-string name raises and the issues found so far are dropped.
   */
  function RequiredIssues(names: seq<Value>, env: Env): (r: Result<seq<Issue>, SchemaError>)
    ensures r.Err? <==> exists i :: 0 <= i < |names| && !names[i].Str?
    ensures r.Err? ==> exists i :: (0 <= i < |names| && r.error == RequiredNameNotString(names[i])
      && !names[i].Str? && forall j :: 0 <= j < i ==> names[j].Str?)
    ensures r.Ok? ==> forall k :: 0 <= k < |r.value| ==> r.value[k].RequiredMissing?
  {
    if names == [] then Ok([])
    else if !names[0].Str? then Err(RequiredNameNotString(names[0]))
    else
      var rest :- RequiredIssues(names[1..], env);
      var here := if Unset(env, names[0].s) then [RequiredMissing(names[0].s)] else [];
      assert forall j :: 1 <= j < |names| ==> names[j] == names[1..][j - 1];
      Ok(here + rest)
  }

  /** A variable is reported exactly when the list names it and it is unset. */
  lemma {:induction false} RequiredMembers(names: seq<Value>, env: Env, issues: seq<Issue>)
    requires RequiredIssues(names, env) == Ok(issues)
    ensures forall n :: RequiredMissing(n) in issues <==> Str(n) in names && Unset(env, n)
  {
    if names != [] {
      var rest := RequiredIssues(names[1..], env).value;
      RequiredMembers(names[1..], env, rest);
      assert names == [names[0]] + names[1..];
    }
  }

  /** How many of the first `i` required names are unset. */
  ghost function MissingBefore(names: seq<Value>, env: Env, i: nat): nat
    requires i <= |names|
  {
    if i == 0 then 0
    else MissingBefore(names, env, i - 1) + (if MissingAt(names, env, i - 1) then 1 else 0)
  }

  /** Counting over the whole list splits into its head and its tail. */
  lemma {:induction false} MissingBeforeTail(names: seq<Value>, env: Env, i: nat)
    requires 1 <= i <= |names|
    ensures MissingBefore(names, env, i)
      == (if MissingAt(names, env, 0) then 1 else 0) + MissingBefore(names[1..], env, i - 1)
  {
    if i > 1 {
      MissingBeforeTail(names, env, i - 1);
      assert MissingAt(names, env, i - 1) == MissingAt(names[1..], env, i - 2);
    }
  }

  /** Every unset name's issue sits after one issue per unset name before it. */
  ghost predicate Placed(names: seq<Value>, env: Env, issues: seq<Issue>) {
    forall i :: 0 <= i < |names| && MissingAt(names, env, i) ==>
      MissingBefore(names, env, i) < |issues| && issues[MissingBefore(names, env, i)] == RequiredMissing(names[i].s)
  }

  /** Placing the head's issue in front of the tail's placed issues places them all. */
  lemma PlacedStep(names: seq<Value>, env: Env, rest: seq<Issue>, issues: seq<Issue>)
    requires names != [] && Placed(names[1..], env, rest)
    requires issues == (if MissingAt(names, env, 0) then [RequiredMissing(names[0].s)] else []) + rest
    ensures Placed(names, env, issues)
  {
    var h := if MissingAt(names, env, 0) then 1 else 0;
    forall i | 0 <= i < |names| && MissingAt(names, env, i)
      ensures MissingBefore(names, env, i) < |issues| && issues[MissingBefore(names, env, i)] == RequiredMissing(names[i].s)
    {
      if i > 0 {
        MissingBeforeTail(names, env, i);
        assert names[1..][i - 1] == names[i];
        assert MissingAt(names[1..], env, i - 1);
        var k := MissingBefore(names[1..], env, i - 1);
        assert issues[h + k] == rest[k];
      }
    }
  }

  /**
   * The issues list the unset names in list order: the issue for the `i`-th
   * name sits after one issue per unset name before it, and there is nothing
   * else.
   */
  lemma {:induction false} RequiredInOrder(names: seq<Value>, env: Env, issues: seq<Issue>)
    requires RequiredIssues(names, env) == Ok(issues)
    ensures |issues| == MissingBefore(names, env, |names|)
    ensures Placed(names, env, issues)
  {
    if names != [] {
      var rest := RequiredIssues(names[1..], env).value;
      RequiredInOrder(names[1..], env, rest);
      assert issues == (if MissingAt(names, env, 0) then [RequiredMissing(names[0].s)] else []) + rest;
      MissingBeforeTail(names, env, |names|);
      PlacedStep(names, env, rest, issues);
    }
  }

  // ---------------------------------------------------------------------------
  // Declared variables
  // ---------------------------------------------------------------------------

  /** The `vars` member `m` is looked at: its spec is an object and the variable is set. */
  predicate Checked(m: (Value, Value), env: Env) {
    m.1.Map? && m.0.Str? && m.0.s in env
  }

  /** The member's `pattern` cannot be applied: it is not a string or does not compile. */
  ghost predicate PatternFails(m: (Value, Value), env: Env, matches: Matcher) {
    && Checked(m, env)
    && var p := Get(m.1.members, Str("pattern"));
    && p.Some?
    && (!p.value.Str? || matches(p.value.s, env[m.0.s]).None?)
  }

  /** Variable `n`, declared by `m`, does not match its pattern `p`. */
  ghost predicate Mismatches(m: (Value, Value), env: Env, matches: Matcher, n: string, p: string) {
    && Checked(m, env)
    && m.0.s == n
    && Get(m.1.members, Str("pattern")) == Some(Str(p))
    && matches(p, env[n]) == Some(false)
  }

  /** Variable `n`, declared by `m` with type `integer`, does not parse as one. */
  ghost predicate FailsInteger(m: (Value, Value), env: Env, isInt: IntTest, n: string) {
    && Checked(m, env)
    && m.0.s == n
    && Get(m.1.members, Str("type")) == Some(Str("integer"))
    && !isInt(env[n])
  }

  /** Variable `n`, declared by `m` with type `boolean`, is not a boolean word in any case. */
  ghost predicate FailsBoolean(m: (Value, Value), env: Env, n: string) {
    && Checked(m, env)
    && m.0.s == n
    && Get(m.1.members, Str("type")) == Some(Str("boolean"))
    && Lower(env[n]) !in BooleanWords
  }

  /** The `pattern` check of one variable. */
  function PatternCheck(name: string, spec: Fields, value: string, matches: Matcher): Result<seq<Issue>, SchemaError> {
    match Get(spec, Str("pattern"))
    case None => Ok([])
    case Some(p) =>
      if !p.Str? then Err(PatternNotString(name))
      else match matches(p.s, value)
        case None => Err(PatternInvalid(name, p.s))
        case Some(true) => Ok([])
        case Some(false) => Ok([PatternMismatch(name, p.s)])
  }

  /** The `type` check of one variable; a type other than the two known ones is ignored. */
  function TypeCheck(name: string, spec: Fields, value: string, isInt: IntTest): seq<Issue> {
    var t := Get(spec, Str("type"));
    if t == Some(Str("integer")) then
      if isInt(value) then [] else [NotInteger(name)]
    else if t == Some(Str("boolean")) then
      if Lower(value) in BooleanWords then [] else [NotBoolean(name)]
    else []
  }

  /** One iteration of the loop over `vars`: the pattern issue, then the type issue. */
  function VarIssues(m: (Value, Value), env: Env, matches: Matcher, isInt: IntTest): (r: Result<seq<Issue>, SchemaError>)
    ensures !Checked(m, env) ==> r == Ok([])
    ensures r.Err? <==> PatternFails(m, env, matches)
    ensures r.Ok? ==> |r.value| <= 2
    ensures r.Ok? ==> forall k :: 0 <= k < |r.value| ==>
      Checked(m, env) && r.value[k].name == m.0.s && !r.value[k].RequiredMissing?
      && (k > 0 ==> !r.value[k].PatternMismatch?)
    ensures r.Ok? ==> forall n, p :: PatternMismatch(n, p) in r.value <==> Mismatches(m, env, matches, n, p)
    ensures r.Ok? ==> forall n :: NotInteger(n) in r.value <==> FailsInteger(m, env, isInt, n)
    ensures r.Ok? ==> forall n :: NotBoolean(n) in r.value <==> FailsBoolean(m, env, n)
  {
    if !Checked(m, env) then Ok([])
    else
      var value := env[m.0.s];
      var p :- PatternCheck(m.0.s, m.1.members, value, matches);
      Ok(p + TypeCheck(m.0.s, m.1.members, value, isInt))
  }

  /** The loop over `vars`, in member order. */
  function VarsIssues(members: Fields, env: Env, matches: Matcher, isInt: IntTest): (r: Result<seq<Issue>, SchemaError>)
    ensures r.Ok? ==> forall k :: 0 <= k < |r.value| ==> !r.value[k].RequiredMissing?
  {
    if members == [] then Ok([])
    else
      var first :- VarIssues(members[0], env, matches, isInt);
      var rest :- VarsIssues(members[1..], env, matches, isInt);
      Ok(first + rest)
  }

  /** The loop over `vars` raises exactly when some checked pattern cannot be applied. */
  lemma {:induction false} VarsOk(members: Fields, env: Env, matches: Matcher, isInt: IntTest)
    ensures VarsIssues(members, env, matches, isInt).Ok?
      <==> forall i :: 0 <= i < |members| ==> !PatternFails(members[i], env, matches)
  {
    if members != [] {
      VarsOk(members[1..], env, matches, isInt);
      assert forall i :: 1 <= i < |members| ==> members[i] == members[1..][i - 1];
    }
  }

  /** An issue of the loop over `vars` is an issue of one of its iterations, and back. */
  lemma {:induction false} VarsMembers(members: Fields, env: Env, matches: Matcher, isInt: IntTest, issues: seq<Issue>)
    requires VarsIssues(members, env, matches, isInt) == Ok(issues)
    ensures forall i :: 0 <= i < |members| ==> VarIssues(members[i], env, matches, isInt).Ok?
    ensures forall x :: x in issues <==>
      exists i :: 0 <= i < |members| && x in VarIssues(members[i], env, matches, isInt).value
  {
    if members != [] {
      var first := VarIssues(members[0], env, matches, isInt).value;
      var rest := VarsIssues(members[1..], env, matches, isInt).value;
      VarsMembers(members[1..], env, matches, isInt, rest);
      assert issues == first + rest;
      assert forall i :: 1 <= i < |members| ==> members[i] == members[1..][i - 1];
      forall x | x in issues
        ensures exists i :: 0 <= i < |members| && x in VarIssues(members[i], env, matches, isInt).value
      {
        if x !in first {
          var i :| 0 <= i < |members[1..]| && x in VarIssues(members[1..][i], env, matches, isInt).value;
          assert members[1..][i] == members[i + 1];
        }
      }
    }
  }

  /** A Python dict never holds one key twice. */
  predicate DistinctKeys(members: Fields) {
    forall i, j :: 0 <= i < j < |members| ==> members[i].0 != members[j].0
  }

  /** Where the variable an issue is about is declared in `vars`. */
  function DeclaredAt(members: Fields, x: Issue): Option<nat> {
    IndexOf(members, Str(x.name))
  }

  /**
   * Issues are about declared variables, in declaration order, and for one
   * variable the pattern issue comes first.
   */
  ghost predicate InDeclarationOrder(members: Fields, issues: seq<Issue>) {
    && (forall k :: 0 <= k < |issues| ==> DeclaredAt(members, issues[k]).Some?)
    && (forall a, b :: 0 <= a < b < |issues| ==>
          DeclaredAt(members, issues[a]).value <= DeclaredAt(members, issues[b]).value)
    && (forall a, b :: 0 <= a < b < |issues| && issues[a].name == issues[b].name ==>
          !issues[b].PatternMismatch?)
  }

  /** A variable declared in the tail sits one place later in the whole mapping. */
  lemma DeclaredInTail(members: Fields, x: Issue)
    requires members != [] && DistinctKeys(members)
    requires DeclaredAt(members[1..], x).Some?
    ensures DeclaredAt(members, x) == Some(DeclaredAt(members[1..], x).value + 1)
  {
    var j := DeclaredAt(members[1..], x).value;
    assert members[1..][j] == members[j + 1];
    forall i | 0 <= i < j + 1
      ensures members[i].0 != Str(x.name)
    {
      if i > 0 {
        assert members[1..][i - 1] == members[i];
      }
    }
    IndexOfIs(members, Str(x.name), j + 1);
  }

  /** The first variable's issues in front of the ordered rest stay ordered. */
  lemma OrderStep(members: Fields, first: seq<Issue>, rest: seq<Issue>)
    requires members != [] && DistinctKeys(members)
    requires InDeclarationOrder(members[1..], rest)
    requires forall k :: 0 <= k < |first| ==> members[0].0 == Str(first[k].name)
    requires forall k :: 0 < k < |first| ==> !first[k].PatternMismatch?
    ensures InDeclarationOrder(members, first + rest)
  {
    var issues := first + rest;
    forall k | 0 <= k < |first|
      ensures DeclaredAt(members, first[k]) == Some(0)
    {
      IndexOfIs(members, Str(first[k].name), 0);
    }
    forall k | 0 <= k < |rest|
      ensures DeclaredAt(members, rest[k]) == Some(DeclaredAt(members[1..], rest[k]).value + 1)
    {
      DeclaredInTail(members, rest[k]);
    }
    assert forall k :: 0 <= k < |issues| ==> issues[k] == if k < |first| then first[k] else rest[k - |first|];
  }

  /**
   * The loop over `vars` reports variables in declaration order, and for one
   * variable the pattern issue comes before the type issue.
   */
  lemma {:induction false} VarsInOrder(members: Fields, env: Env, matches: Matcher, isInt: IntTest, issues: seq<Issue>)
    requires DistinctKeys(members)
    requires VarsIssues(members, env, matches, isInt) == Ok(issues)
    ensures InDeclarationOrder(members, issues)
  {
    if members != [] {
      var first := VarIssues(members[0], env, matches, isInt).value;
      var rest := VarsIssues(members[1..], env, matches, isInt).value;
      VarsInOrder(members[1..], env, matches, isInt, rest);
      OrderStep(members, first, rest);
    }
  }

  // ---------------------------------------------------------------------------
  // The validator
  // ---------------------------------------------------------------------------

  /** `validate_env_schema`, with the snapshot read and the environment collected. */
  function Validate(schema: Schema, env: Env, matches: Matcher, isInt: IntTest): (r: Result<seq<Issue>, SchemaError>)
    ensures schema.Absent? ==> r == Ok([])
    ensures schema.Unloadable? ==> r == Err(SchemaUnloadable)
    ensures schema.Loaded? && !schema.json.Map? ==> r == Err(SchemaNotObject)
    ensures schema.Loaded? && schema.json.Map? && !RequiredOf(schema.json).List? ==> r == Err(RequiredNotList)
    ensures schema.Loaded? && schema.json.Map? && RequiredOf(schema.json).List? && !VarsOf(schema.json).Map?
      ==> r == Err(VarsNotObject)
    ensures schema.Loaded? && RequiredOf(schema.json).List? && VarsOf(schema.json).Map?
      && (exists v :: v in RequiredOf(schema.json).items && !v.Str?)
      ==> r.Err? && r.error.RequiredNameNotString?
  {
    match schema
    case Absent => Ok([])
    case Unloadable => Err(SchemaUnloadable)
    case Loaded(json) =>
      if !json.Map? then Err(SchemaNotObject)
      else
        var required := RequiredOf(json);
        if !required.List? then Err(RequiredNotList)
        else
          var vars := VarsOf(json);
          if !vars.Map? then Err(VarsNotObject)
          else
            var missing :- RequiredIssues(required.items, env);
            var checked :- VarsIssues(vars.members, env, matches, isInt);
            Ok(missing + checked)
  }

  /** The schema passes every check that raises. */
  ghost predicate Accepted(schema: Schema, env: Env, matches: Matcher) {
    || schema.Absent?
    || (&& schema.Loaded?
        && schema.json.Map?
        && RequiredOf(schema.json).List?
        && VarsOf(schema.json).Map?
        && (forall v :: v in RequiredOf(schema.json).items ==> v.Str?)
        && (forall i :: 0 <= i < |VarsOf(schema.json).members| ==>
              !PatternFails(VarsOf(schema.json).members[i], env, matches)))
  }

  /** Validation returns a list exactly when no check raises. */
  lemma ValidateAccepts(schema: Schema, env: Env, matches: Matcher, isInt: IntTest)
    ensures Validate(schema, env, matches, isInt).Ok? <==> Accepted(schema, env, matches)
  {
    if schema.Loaded? && schema.json.Map? && RequiredOf(schema.json).List? && VarsOf(schema.json).Map? {
      VarsOk(VarsOf(schema.json).members, env, matches, isInt);
    }
  }

  /** A list result is the required-variable issues followed by the `vars` issues. */
  lemma ValidateParts(schema: Schema, env: Env, matches: Matcher, isInt: IntTest, issues: seq<Issue>)
    returns (missing: seq<Issue>, checked: seq<Issue>)
    requires schema.Loaded? && Validate(schema, env, matches, isInt) == Ok(issues)
    ensures RequiredOf(schema.json).List? && VarsOf(schema.json).Map?
    ensures RequiredIssues(RequiredOf(schema.json).items, env) == Ok(missing)
    ensures VarsIssues(VarsOf(schema.json).members, env, matches, isInt) == Ok(checked)
    ensures issues == missing + checked
  {
    missing := RequiredIssues(RequiredOf(schema.json).items, env).value;
    checked := VarsIssues(VarsOf(schema.json).members, env, matches, isInt).value;
  }

  /** A required variable is reported exactly when it is listed and unset. */
  lemma ValidateRequired(schema: Schema, env: Env, matches: Matcher, isInt: IntTest, issues: seq<Issue>)
    requires schema.Loaded? && Validate(schema, env, matches, isInt) == Ok(issues)
    ensures forall n :: RequiredMissing(n) in issues <==> Str(n) in RequiredOf(schema.json).items && Unset(env, n)
  {
    var missing, checked := ValidateParts(schema, env, matches, isInt, issues);
    RequiredMembers(RequiredOf(schema.json).items, env, missing);
    assert forall x :: x in checked ==> !x.RequiredMissing?;
  }

  /**
   * Required-variable issues come first, one per unset name in list order;
   * everything after them is about `vars`.
   */
  lemma ValidateRequiredFirst(schema: Schema, env: Env, matches: Matcher, isInt: IntTest, issues: seq<Issue>)
    requires schema.Loaded? && Validate(schema, env, matches, isInt) == Ok(issues)
    ensures var names := RequiredOf(schema.json).items;
      && (forall k :: 0 <= k < |issues| ==>
            (issues[k].RequiredMissing? <==> k < MissingBefore(names, env, |names|)))
      && (forall i :: 0 <= i < |names| && MissingAt(names, env, i) ==>
            MissingBefore(names, env, i) < |issues| && issues[MissingBefore(names, env, i)] == RequiredMissing(names[i].s))
  {
    var missing, checked := ValidateParts(schema, env, matches, isInt, issues);
    RequiredInOrder(RequiredOf(schema.json).items, env, missing);
    assert forall k :: |missing| <= k < |issues| ==> issues[k] == checked[k - |missing|];
  }

  /**
   * Issues about declared variables follow the order of `vars`, and a
   * variable's pattern issue precedes its type issue.
   */
  lemma ValidateVarsOrder(schema: Schema, env: Env, matches: Matcher, isInt: IntTest, issues: seq<Issue>)
    requires schema.Loaded? && Validate(schema, env, matches, isInt) == Ok(issues)
    requires DistinctKeys(VarsOf(schema.json).members)
    ensures var vars := VarsOf(schema.json).members;
      forall a, b :: 0 <= a < b < |issues| && !issues[a].RequiredMissing? ==>
        && !issues[b].RequiredMissing?
        && DeclaredAt(vars, issues[a]).Some? && DeclaredAt(vars, issues[b]).Some?
        && DeclaredAt(vars, issues[a]).value <= DeclaredAt(vars, issues[b]).value
        && (issues[a].name == issues[b].name ==> !issues[b].PatternMismatch?)
  {
    var missing, checked := ValidateParts(schema, env, matches, isInt, issues);
    VarsInOrder(VarsOf(schema.json).members, env, matches, isInt, checked);
    assert InDeclarationOrder(VarsOf(schema.json).members, checked);
    assert forall k :: 0 <= k < |issues| && !issues[k].RequiredMissing? ==> k >= |missing|;
    assert forall k :: |missing| <= k < |issues| ==> issues[k] == checked[k - |missing|];
  }

  /** A pattern issue is reported exactly for a set variable that does not match its pattern. */
  lemma ValidatePattern(schema: Schema, env: Env, matches: Matcher, isInt: IntTest, issues: seq<Issue>)
    requires schema.Loaded? && Validate(schema, env, matches, isInt) == Ok(issues)
    ensures var vars := VarsOf(schema.json).members;
      forall n, p :: PatternMismatch(n, p) in issues <==>
        exists i :: 0 <= i < |vars| && Mismatches(vars[i], env, matches, n, p)
  {
    var missing, checked := ValidateParts(schema, env, matches, isInt, issues);
    VarsMembers(VarsOf(schema.json).members, env, matches, isInt, checked);
    assert forall x :: x in missing ==> x.RequiredMissing?;
  }

  /** An integer issue is reported exactly for a set `integer` variable that does not parse. */
  lemma ValidateInteger(schema: Schema, env: Env, matches: Matcher, isInt: IntTest, issues: seq<Issue>)
    requires schema.Loaded? && Validate(schema, env, matches, isInt) == Ok(issues)
    ensures var vars := VarsOf(schema.json).members;
      forall n :: NotInteger(n) in issues <==>
        exists i :: 0 <= i < |vars| && FailsInteger(vars[i], env, isInt, n)
  {
    var missing, checked := ValidateParts(schema, env, matches, isInt, issues);
    VarsMembers(VarsOf(schema.json).members, env, matches, isInt, checked);
    assert forall x :: x in missing ==> x.RequiredMissing?;
  }

  /** A boolean issue is reported exactly for a set `boolean` variable outside the accepted words. */
  lemma ValidateBoolean(schema: Schema, env: Env, matches: Matcher, isInt: IntTest, issues: seq<Issue>)
    requires schema.Loaded? && Validate(schema, env, matches, isInt) == Ok(issues)
    ensures var vars := VarsOf(schema.json).members;
      forall n :: NotBoolean(n) in issues <==>
        exists i :: 0 <= i < |vars| && FailsBoolean(vars[i], env, n)
  {
    var missing, checked := ValidateParts(schema, env, matches, isInt, issues);
    VarsMembers(VarsOf(schema.json).members, env, matches, isInt, checked);
    assert forall x :: x in missing ==> x.RequiredMissing?;
  }
}
