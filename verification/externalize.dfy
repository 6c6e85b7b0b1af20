/**
 * Moving inline code out of a workflow document during export: every
 * eligible code parameter of every node becomes an include directive
 * naming a script file, and the code itself becomes a write of that file.
 * File writes are returned as data instead of being performed.
 */
module Externalize {
  import opened Wrappers
  import opened JsonValue
  import opened Text
  import opened Filenames

  const IncludeMarker: string := "@@n8n-gitops:include"

  /** `_get_file_extension`: the script extension for a code field. */
  function FileExtension(field: string): (r: string)
    ensures r == ".py" <==> field == "pythonCode"
    ensures r == ".js" <==> field in ["jsCode", "code", "functionCode"]
    ensures r == ".txt" <==> field !in ["pythonCode", "jsCode", "code", "functionCode"]
  {
    if field == "pythonCode" then ".py"
    else if field in ["jsCode", "code", "functionCode"] then ".js"
    else ".txt"
  }

  /** A script file the export writes, with its path relative to the n8n root. */
  datatype ScriptWrite = ScriptWrite(path: string, content: string)

  datatype ExportError =
    /** `_sanitize_filename` applied to a node name that is not a string raises `TypeError`. */
    | NodeNameNotString(name: Value)
    /** `_sanitize_filename` applied to a workflow name that is not a string raises `TypeError`. */
    | WorkflowNameNotString(name: Value)

  /** Every character of `s` is whitespace. */
  predicate Blank(s: string) {
    |s| == 0 || (IsSpace(s[0]) && Blank(s[1..]))
  }

  /**
   * A code value that the export moves out: a string that is not blank and
   * whose text after leading whitespace does not begin with the marker.
   * `EligibleMeansTrimmed` relates this to the stripped value.
   */
  predicate Eligible(v: Value) {
    v.Str? && !Blank(v.s) && !IsDirective(v.s)
  }

  /** After any leading whitespace, `s` begins with the include marker. */
  predicate IsDirective(s: string) {
    |s| > 0 && if IsSpace(s[0]) then IsDirective(s[1..]) else StartsWith(s, IncludeMarker)
  }

  /** The script path for `field` of a node, relative to the n8n root. */
  function ScriptPath(safeWorkflow: string, safeNode: string, field: string): (r: string)
    ensures StartsWith(r, "scripts/" + safeWorkflow + "/")
  {
    var dir := "scripts/" + safeWorkflow + "/";
    var r := dir + safeNode + FileExtension(field);
    PrefixOfConcat(dir, safeNode + FileExtension(field));
    r
  }

  /** The checksum-less include directive the export writes in place of the code. */
  function Directive(path: string): string {
    IncludeMarker + " " + path
  }

  /** A rewritten part of the document, how many code values left it, and the scripts written. */
  datatype Moved<T> = Moved(result: T, count: nat, writes: seq<ScriptWrite>)

  /** The loop over the code field names for one node's parameters. */
  function ExternalizeFields(params: Fields, fields: seq<string>, safeWorkflow: string, nodeName: Value): (r: Result<Moved<Fields>, ExportError>)
    ensures r.Ok? ==> r.value.count == |r.value.writes|
    ensures r.Ok? ==> forall w :: w in r.value.writes ==> StartsWith(w.path, "scripts/" + safeWorkflow + "/")
    decreases |fields|
  {
    if fields == [] then Ok(Moved(params, 0, []))
    else
      var key := Str(fields[0]);
      var at := IndexOf(params, key);
      if at.Some? && Eligible(params[at.value].1) then
        if !nodeName.Str? then Err(NodeNameNotString(nodeName))
        else
          var path := ScriptPath(safeWorkflow, SanitizeFilename(nodeName.s), fields[0]);
          var rest :- ExternalizeFields(params[at.value := (key, Str(Directive(path)))], fields[1..], safeWorkflow, nodeName);
          Ok(Moved(rest.result, rest.count + 1, [ScriptWrite(path, params[at.value].1.s)] + rest.writes))
      else
        ExternalizeFields(params, fields[1..], safeWorkflow, nodeName)
  }

  // ---------------------------------------------------------------------
  // Which parameters the export replaces
  // ---------------------------------------------------------------------

  /**
   * Parameter `j` is replaced: its key is one of the code field names, it
   * is the member a dict lookup of that key finds, and its value is eligible.
   */
  ghost predicate Replaced(params: Fields, j: int, fields: seq<string>) {
    && 0 <= j < |params|
    && params[j].0.Str?
    && params[j].0.s in fields
    && IndexOf(params, params[j].0) == Some(j)
    && Eligible(params[j].1)
  }

  ghost function ReplacedSet(params: Fields, fields: seq<string>): set<int> {
    set j | 0 <= j < |params| && Replaced(params, j, fields)
  }

  /** The parameters as the export leaves them, position by position. */
  ghost function ExpectedParams(params: Fields, fields: seq<string>, safeWorkflow: string, safeNode: string): (r: Fields)
    ensures |r| == |params|
  {
    seq(|params|, j requires 0 <= j < |params| =>
      if Replaced(params, j, fields)
      then (params[j].0, Str(Directive(ScriptPath(safeWorkflow, safeNode, params[j].0.s))))
      else params[j])
  }

  /** The write the export performs for replaced parameter `j`. */
  ghost function WriteFor(params: Fields, j: int, safeWorkflow: string, safeNode: string): ScriptWrite
    requires 0 <= j < |params| && params[j].0.Str? && params[j].1.Str?
  {
    ScriptWrite(ScriptPath(safeWorkflow, safeNode, params[j].0.s), params[j].1.s)
  }

  /** A directive's trimmed text starts with the marker, so it is never moved out again. */
  lemma DirectiveNotEligible(path: string)
    ensures !Eligible(Str(Directive(path)))
  {
    var d := Directive(path);
    assert d == IncludeMarker + (" " + path);
    PrefixOfConcat(IncludeMarker, " " + path);
    assert !IsSpace(d[0]);
  }

  /** A field whose lookup finds an eligible value is replaced there, and nowhere else. */
  lemma StepMoved(params: Fields, fields: seq<string>, j: nat, d: Value)
    requires fields != [] && IndexOf(params, Str(fields[0])) == Some(j)
    requires Eligible(params[j].1) && !Eligible(d)
    ensures var moved := params[j := (Str(fields[0]), d)];
      && j in ReplacedSet(params, fields)
      && j !in ReplacedSet(moved, fields[1..])
      && ReplacedSet(params, fields) == {j} + ReplacedSet(moved, fields[1..])
  {
    var moved := params[j := (Str(fields[0]), d)];
    forall k: Value
      ensures IndexOf(moved, k) == IndexOf(params, k)
    {
      IndexOfSameKeys(params, moved, k);
    }
    assert Replaced(params, j, fields);
    forall i | i != j
      ensures Replaced(params, i, fields) <==> Replaced(moved, i, fields[1..])
    {
      if 0 <= i < |params| && params[i].0 == Str(fields[0]) {
        assert IndexOf(params, params[i].0) != Some(i);
      }
    }
  }

  /** A field whose lookup fails or finds an ineligible value replaces nothing. */
  lemma StepSkipped(params: Fields, fields: seq<string>)
    requires fields != []
    requires var at := IndexOf(params, Str(fields[0])); !(at.Some? && Eligible(params[at.value].1))
    ensures ReplacedSet(params, fields) == ReplacedSet(params, fields[1..])
  {
    forall i | 0 <= i < |params|
      ensures Replaced(params, i, fields) <==> Replaced(params, i, fields[1..])
    {
      if params[i].0 == Str(fields[0]) && IndexOf(params, params[i].0) == Some(i) {
        assert !Eligible(params[i].1);
      }
    }
  }

  /** Name of a node as the sanitiser sees it, when the name is a string. */
  function SafeNode(nodeName: Value): string
    requires nodeName.Str?
  {
    SanitizeFilename(nodeName.s)
  }

  /** The parameters after field `fields[0]` has been moved out at `j`. */
  function MovedOut(params: Fields, fields: seq<string>, j: nat, safeWorkflow: string, safeNode: string): Fields
    requires fields != [] && j < |params|
  {
    params[j := (Str(fields[0]), Str(Directive(ScriptPath(safeWorkflow, safeNode, fields[0]))))]
  }

  lemma MovedReplaced(params: Fields, fields: seq<string>, j: nat, safeWorkflow: string, safeNode: string)
    requires fields != [] && IndexOf(params, Str(fields[0])) == Some(j) && Eligible(params[j].1)
    ensures var moved := MovedOut(params, fields, j, safeWorkflow, safeNode);
      && Replaced(params, j, fields) && !Replaced(moved, j, fields[1..])
      && (forall i :: i != j ==> (Replaced(params, i, fields) <==> Replaced(moved, i, fields[1..])))
      && |ReplacedSet(params, fields)| == 1 + |ReplacedSet(moved, fields[1..])|
  {
    var path := ScriptPath(safeWorkflow, safeNode, fields[0]);
    DirectiveNotEligible(path);
    StepMoved(params, fields, j, Str(Directive(path)));
    var moved := MovedOut(params, fields, j, safeWorkflow, safeNode);
    forall i | i != j
      ensures Replaced(params, i, fields) <==> Replaced(moved, i, fields[1..])
    {
      assert Replaced(params, i, fields) <==> i in ReplacedSet(params, fields);
      assert Replaced(moved, i, fields[1..]) <==> i in ReplacedSet(moved, fields[1..]);
    }
  }

  lemma MovedExpected(params: Fields, fields: seq<string>, j: nat, safeWorkflow: string, safeNode: string)
    requires fields != [] && IndexOf(params, Str(fields[0])) == Some(j) && Eligible(params[j].1)
    ensures ExpectedParams(MovedOut(params, fields, j, safeWorkflow, safeNode), fields[1..], safeWorkflow, safeNode)
         == ExpectedParams(params, fields, safeWorkflow, safeNode)
  {
    var moved := MovedOut(params, fields, j, safeWorkflow, safeNode);
    MovedReplaced(params, fields, j, safeWorkflow, safeNode);
    var a := ExpectedParams(moved, fields[1..], safeWorkflow, safeNode);
    var b := ExpectedParams(params, fields, safeWorkflow, safeNode);
    forall i | 0 <= i < |params|
      ensures a[i] == b[i]
    {
      if i == j {
        assert a[i] == moved[j];
        assert b[i] == (params[j].0, Str(Directive(ScriptPath(safeWorkflow, safeNode, params[j].0.s))));
      } else {
        assert moved[i] == params[i];
      }
    }
    assert a == b;
  }

  lemma SkippedReplaced(params: Fields, fields: seq<string>)
    requires fields != []
    requires var at := IndexOf(params, Str(fields[0])); !(at.Some? && Eligible(params[at.value].1))
    ensures forall i :: Replaced(params, i, fields) <==> Replaced(params, i, fields[1..])
    ensures ReplacedSet(params, fields) == ReplacedSet(params, fields[1..])
  {
    StepSkipped(params, fields);
    forall i
      ensures Replaced(params, i, fields) <==> Replaced(params, i, fields[1..])
    {
      assert Replaced(params, i, fields) <==> i in ReplacedSet(params, fields);
      assert Replaced(params, i, fields[1..]) <==> i in ReplacedSet(params, fields[1..]);
    }
  }

  lemma SkippedExpected(params: Fields, fields: seq<string>, safeWorkflow: string, safeNode: string)
    requires fields != []
    requires var at := IndexOf(params, Str(fields[0])); !(at.Some? && Eligible(params[at.value].1))
    ensures ExpectedParams(params, fields[1..], safeWorkflow, safeNode) == ExpectedParams(params, fields, safeWorkflow, safeNode)
  {
    SkippedReplaced(params, fields);
  }

  /** One step of the field loop when the looked-up value moves out. */
  lemma FieldsMovedStep(params: Fields, fields: seq<string>, safeWorkflow: string, nodeName: Value, j: nat)
    requires fields != [] && nodeName.Str?
    requires IndexOf(params, Str(fields[0])) == Some(j) && Eligible(params[j].1)
    ensures var r := ExternalizeFields(params, fields, safeWorkflow, nodeName);
      var rest := ExternalizeFields(MovedOut(params, fields, j, safeWorkflow, SafeNode(nodeName)), fields[1..], safeWorkflow, nodeName);
      && r.Ok? == rest.Ok?
      && (r.Ok? ==> && r.value.result == rest.value.result
                    && r.value.count == rest.value.count + 1
                    && r.value.writes == [WriteFor(params, j, safeWorkflow, SafeNode(nodeName))] + rest.value.writes)
  {
  }

  /** One step of the field loop when nothing moves out. */
  lemma FieldsSkippedStep(params: Fields, fields: seq<string>, safeWorkflow: string, nodeName: Value)
    requires fields != []
    requires var at := IndexOf(params, Str(fields[0])); !(at.Some? && Eligible(params[at.value].1))
    ensures ExternalizeFields(params, fields, safeWorkflow, nodeName)
         == ExternalizeFields(params, fields[1..], safeWorkflow, nodeName)
  {
  }

  /** With no code field names left, the reference rewriting changes nothing. */
  lemma ExpectedNoFields(params: Fields, safeWorkflow: string, safeNode: string)
    ensures ExpectedParams(params, [], safeWorkflow, safeNode) == params
  {
    assert forall j :: 0 <= j < |params| ==> !Replaced(params, j, []);
  }

  /** The export fails on a node exactly when a value is to move out but the node name is not a string. */
  lemma {:induction false} FieldsFail(params: Fields, fields: seq<string>, safeWorkflow: string, nodeName: Value)
    ensures ExternalizeFields(params, fields, safeWorkflow, nodeName).Err?
        <==> !nodeName.Str? && ReplacedSet(params, fields) != {}
    decreases |fields|
  {
    if fields == [] {
      assert ReplacedSet(params, fields) == {};
    } else {
      var at := IndexOf(params, Str(fields[0]));
      if at.Some? && Eligible(params[at.value].1) {
        if !nodeName.Str? {
          assert at.value in ReplacedSet(params, fields);
        } else {
          FieldsMovedStep(params, fields, safeWorkflow, nodeName, at.value);
          FieldsFail(MovedOut(params, fields, at.value, safeWorkflow, SafeNode(nodeName)), fields[1..], safeWorkflow, nodeName);
        }
      } else {
        FieldsSkippedStep(params, fields, safeWorkflow, nodeName);
        SkippedReplaced(params, fields);
        FieldsFail(params, fields[1..], safeWorkflow, nodeName);
      }
    }
  }

  /** The count the export reports for a node is the number of parameters it replaced. */
  lemma {:induction false} FieldsCount(params: Fields, fields: seq<string>, safeWorkflow: string, nodeName: Value)
    ensures var r := ExternalizeFields(params, fields, safeWorkflow, nodeName);
      r.Ok? ==> r.value.count == |ReplacedSet(params, fields)|
    decreases |fields|
  {
    if fields == [] {
      assert ReplacedSet(params, fields) == {};
    } else {
      var at := IndexOf(params, Str(fields[0]));
      if at.Some? && Eligible(params[at.value].1) {
        if nodeName.Str? {
          FieldsMovedStep(params, fields, safeWorkflow, nodeName, at.value);
          MovedReplaced(params, fields, at.value, safeWorkflow, SafeNode(nodeName));
          FieldsCount(MovedOut(params, fields, at.value, safeWorkflow, SafeNode(nodeName)), fields[1..], safeWorkflow, nodeName);
        }
      } else {
        FieldsSkippedStep(params, fields, safeWorkflow, nodeName);
        SkippedReplaced(params, fields);
        FieldsCount(params, fields[1..], safeWorkflow, nodeName);
      }
    }
  }

  /** The parameters the export leaves are the reference rewriting, position by position. */
  lemma {:induction false} FieldsParams(params: Fields, fields: seq<string>, safeWorkflow: string, nodeName: Value)
    ensures var r := ExternalizeFields(params, fields, safeWorkflow, nodeName);
      && (r.Ok? && !nodeName.Str? ==> r.value.result == params)
      && (r.Ok? && nodeName.Str? ==> r.value.result == ExpectedParams(params, fields, safeWorkflow, SafeNode(nodeName)))
    decreases |fields|
  {
    if fields == [] {
      if nodeName.Str? {
        ExpectedNoFields(params, safeWorkflow, SafeNode(nodeName));
      }
    } else {
      var at := IndexOf(params, Str(fields[0]));
      if at.Some? && Eligible(params[at.value].1) {
        if nodeName.Str? {
          FieldsMovedStep(params, fields, safeWorkflow, nodeName, at.value);
          MovedExpected(params, fields, at.value, safeWorkflow, SafeNode(nodeName));
          FieldsParams(MovedOut(params, fields, at.value, safeWorkflow, SafeNode(nodeName)), fields[1..], safeWorkflow, nodeName);
        }
      } else {
        FieldsSkippedStep(params, fields, safeWorkflow, nodeName);
        FieldsParams(params, fields[1..], safeWorkflow, nodeName);
        if nodeName.Str? {
          SkippedExpected(params, fields, safeWorkflow, SafeNode(nodeName));
        }
      }
    }
  }

  /** The scripts written for `params` and `fields`: one per replaced parameter. */
  ghost predicate WritesReplaced(params: Fields, fields: seq<string>, safeWorkflow: string, nodeName: Value)
    requires nodeName.Str?
  {
    var r := ExternalizeFields(params, fields, safeWorkflow, nodeName);
    r.Ok? && forall w :: w in r.value.writes <==>
      exists j :: Replaced(params, j, fields) && w == WriteFor(params, j, safeWorkflow, SafeNode(nodeName))
  }

  /** Each script written holds the original code of exactly one replaced parameter. */
  lemma {:induction false} FieldsWrites(params: Fields, fields: seq<string>, safeWorkflow: string, nodeName: Value)
    requires nodeName.Str?
    ensures WritesReplaced(params, fields, safeWorkflow, nodeName)
    decreases |fields|
  {
    if fields != [] {
      var at := IndexOf(params, Str(fields[0]));
      if at.Some? && Eligible(params[at.value].1) {
        var moved := MovedOut(params, fields, at.value, safeWorkflow, SafeNode(nodeName));
        FieldsWrites(moved, fields[1..], safeWorkflow, nodeName);
        WritesMoved(params, fields, at.value, safeWorkflow, nodeName);
      } else {
        FieldsSkippedStep(params, fields, safeWorkflow, nodeName);
        SkippedReplaced(params, fields);
        FieldsWrites(params, fields[1..], safeWorkflow, nodeName);
      }
    }
  }

  lemma WritesMoved(params: Fields, fields: seq<string>, j: nat, safeWorkflow: string, nodeName: Value)
    requires nodeName.Str?
    requires fields != [] && IndexOf(params, Str(fields[0])) == Some(j) && Eligible(params[j].1)
    requires WritesReplaced(MovedOut(params, fields, j, safeWorkflow, SafeNode(nodeName)), fields[1..], safeWorkflow, nodeName)
    ensures WritesReplaced(params, fields, safeWorkflow, nodeName)
  {
    FieldsMovedStep(params, fields, safeWorkflow, nodeName, j);
    WritesMovedSound(params, fields, j, safeWorkflow, nodeName);
    WritesMovedComplete(params, fields, j, safeWorkflow, nodeName);
  }

  /** After one field moves out, every script written belongs to a replaced parameter. */
  lemma WritesMovedSound(params: Fields, fields: seq<string>, j: nat, safeWorkflow: string, nodeName: Value)
    requires nodeName.Str?
    requires fields != [] && IndexOf(params, Str(fields[0])) == Some(j) && Eligible(params[j].1)
    requires WritesReplaced(MovedOut(params, fields, j, safeWorkflow, SafeNode(nodeName)), fields[1..], safeWorkflow, nodeName)
    ensures var r := ExternalizeFields(params, fields, safeWorkflow, nodeName);
      r.Ok? && forall w :: w in r.value.writes ==>
        exists i :: Replaced(params, i, fields) && w == WriteFor(params, i, safeWorkflow, SafeNode(nodeName))
  {
    var sn := SafeNode(nodeName);
    var moved := MovedOut(params, fields, j, safeWorkflow, sn);
    MovedReplaced(params, fields, j, safeWorkflow, sn);
    FieldsMovedStep(params, fields, safeWorkflow, nodeName, j);
    var r := ExternalizeFields(params, fields, safeWorkflow, nodeName);
    var rest := ExternalizeFields(moved, fields[1..], safeWorkflow, nodeName);
    forall w | w in r.value.writes
      ensures exists i :: Replaced(params, i, fields) && w == WriteFor(params, i, safeWorkflow, sn)
    {
      if w in rest.value.writes {
        var i :| Replaced(moved, i, fields[1..]) && w == WriteFor(moved, i, safeWorkflow, sn);
        assert i != j;
        assert Replaced(params, i, fields) && w == WriteFor(params, i, safeWorkflow, sn);
      } else {
        assert Replaced(params, j, fields) && w == WriteFor(params, j, safeWorkflow, sn);
      }
    }
  }

  /** After one field moves out, every replaced parameter has its script written. */
  lemma WritesMovedComplete(params: Fields, fields: seq<string>, j: nat, safeWorkflow: string, nodeName: Value)
    requires nodeName.Str?
    requires fields != [] && IndexOf(params, Str(fields[0])) == Some(j) && Eligible(params[j].1)
    requires WritesReplaced(MovedOut(params, fields, j, safeWorkflow, SafeNode(nodeName)), fields[1..], safeWorkflow, nodeName)
    ensures var r := ExternalizeFields(params, fields, safeWorkflow, nodeName);
      r.Ok? && forall i :: Replaced(params, i, fields) ==> WriteFor(params, i, safeWorkflow, SafeNode(nodeName)) in r.value.writes
  {
    var sn := SafeNode(nodeName);
    var moved := MovedOut(params, fields, j, safeWorkflow, sn);
    MovedReplaced(params, fields, j, safeWorkflow, sn);
    FieldsMovedStep(params, fields, safeWorkflow, nodeName, j);
    var r := ExternalizeFields(params, fields, safeWorkflow, nodeName);
    forall i | Replaced(params, i, fields)
      ensures WriteFor(params, i, safeWorkflow, sn) in r.value.writes
    {
      var w := WriteFor(params, i, safeWorkflow, sn);
      if i != j {
        assert Replaced(moved, i, fields[1..]) && w == WriteFor(moved, i, safeWorkflow, sn);
      }
    }
  }

  // ---------------------------------------------------------------------
  // The order of the writes for one node
  // ---------------------------------------------------------------------

  /**
   * Reference order of one node's writes, read off the parameters as they
   * were before the loop: one write per code field name, in the order of
   * `fields`, for each name not met before (`seen`) whose lookup finds an
   * eligible value.
   */
  ghost function WritesInFieldOrder(params: Fields, fields: seq<string>, seen: set<string>, safeWorkflow: string, safeNode: string): seq<ScriptWrite>
    decreases |fields|
  {
    if fields == [] then []
    else
      var f := fields[0];
      var at := IndexOf(params, Str(f));
      var rest := WritesInFieldOrder(params, fields[1..], seen + {f}, safeWorkflow, safeNode);
      if f !in seen && at.Some? && Eligible(params[at.value].1)
      then [WriteFor(params, at.value, safeWorkflow, safeNode)] + rest
      else rest
  }

  /**
   * The loop's parameters `cur` part-way through, against the original
   * `params`: same keys; only members of names already met have changed;
   * and no name already met still finds an eligible value.
   */
  ghost predicate LoopAgrees(params: Fields, cur: Fields, seen: set<string>) {
    && |cur| == |params|
    && (forall j :: 0 <= j < |params| ==> cur[j].0 == params[j].0)
    && (forall j :: 0 <= j < |params| && cur[j] != params[j] ==> params[j].0.Str? && params[j].0.s in seen)
    && (forall f :: f in seen && IndexOf(params, Str(f)).Some? ==> !Eligible(cur[IndexOf(params, Str(f)).value].1))
  }

  /** The loop, run from any point that agrees with the original parameters, writes in the reference order. */
  lemma {:induction false} FieldsInOrder(params: Fields, cur: Fields, fields: seq<string>, seen: set<string>, safeWorkflow: string, nodeName: Value)
    requires nodeName.Str? && LoopAgrees(params, cur, seen)
    ensures var r := ExternalizeFields(cur, fields, safeWorkflow, nodeName);
      r.Ok? && r.value.writes == WritesInFieldOrder(params, fields, seen, safeWorkflow, SafeNode(nodeName))
    decreases |fields|
  {
    if fields != [] {
      var f := fields[0];
      IndexOfSameKeys(params, cur, Str(f));
      var at := IndexOf(params, Str(f));
      if f !in seen && at.Some? && Eligible(params[at.value].1) {
        var j := at.value;
        assert cur[j] == params[j];
        var moved := MovedOut(cur, fields, j, safeWorkflow, SafeNode(nodeName));
        FieldsMovedStep(cur, fields, safeWorkflow, nodeName, j);
        MovedAgrees(params, cur, fields, seen, j, safeWorkflow, SafeNode(nodeName));
        FieldsInOrder(params, moved, fields[1..], seen + {f}, safeWorkflow, nodeName);
      } else {
        FieldsSkippedStep(cur, fields, safeWorkflow, nodeName);
        SkippedAgrees(params, cur, f, seen);
        FieldsInOrder(params, cur, fields[1..], seen + {f}, safeWorkflow, nodeName);
      }
    }
  }

  /** Moving out the value of a name not met before keeps the loop in agreement. */
  lemma MovedAgrees(params: Fields, cur: Fields, fields: seq<string>, seen: set<string>, j: nat, safeWorkflow: string, safeNode: string)
    requires LoopAgrees(params, cur, seen) && fields != [] && fields[0] !in seen
    requires IndexOf(params, Str(fields[0])) == Some(j)
    ensures LoopAgrees(params, MovedOut(cur, fields, j, safeWorkflow, safeNode), seen + {fields[0]})
  {
    var f := fields[0];
    var moved := MovedOut(cur, fields, j, safeWorkflow, safeNode);
    DirectiveNotEligible(ScriptPath(safeWorkflow, safeNode, f));
    forall g | g in seen + {f} && IndexOf(params, Str(g)).Some?
      ensures !Eligible(moved[IndexOf(params, Str(g)).value].1)
    {
      if g != f {
        assert IndexOf(params, Str(g)).value != j;
      }
    }
  }

  /** Passing over a name whose value does not move keeps the loop in agreement. */
  lemma SkippedAgrees(params: Fields, cur: Fields, f: string, seen: set<string>)
    requires LoopAgrees(params, cur, seen)
    requires var at := IndexOf(params, Str(f)); f in seen || !(at.Some? && Eligible(params[at.value].1))
    ensures LoopAgrees(params, cur, seen + {f})
  {
    var at := IndexOf(params, Str(f));
    if f !in seen && at.Some? {
      assert cur[at.value] == params[at.value];
    }
  }

  /** One node's scripts are written in the order of the code field names, from the original values. */
  lemma FieldsWriteOrder(params: Fields, fields: seq<string>, safeWorkflow: string, nodeName: Value)
    requires nodeName.Str?
    ensures var r := ExternalizeFields(params, fields, safeWorkflow, nodeName);
      r.Ok? && r.value.writes == WritesInFieldOrder(params, fields, {}, safeWorkflow, SafeNode(nodeName))
  {
    FieldsInOrder(params, params, fields, {}, safeWorkflow, nodeName);
  }

  lemma {:induction false} BlankAllSpace(s: string)
    ensures Blank(s) <==> forall j :: 0 <= j < |s| ==> IsSpace(s[j])
  {
    if |s| > 0 {
      BlankAllSpace(s[1..]);
      assert forall j :: 1 <= j < |s| ==> s[j] == s[1..][j - 1];
    }
  }

  lemma {:induction false} DirectiveAfterSpace(s: string)
    ensures IsDirective(s) <==> StartsWith(DropLeading(s, IsSpace), IncludeMarker)
  {
    if |s| > 0 && IsSpace(s[0]) {
      DirectiveAfterSpace(s[1..]);
    }
  }

  /** The marker ends in a non-space character, so trailing whitespace removal keeps it. */
  lemma MarkerSurvivesTrailing(left: string)
    ensures StartsWith(left, IncludeMarker) <==> StartsWith(DropTrailing(left, IsSpace), IncludeMarker)
  {
    var t := DropTrailing(left, IsSpace);
    var k := |IncludeMarker| - 1;
    if StartsWith(left, IncludeMarker) {
      assert left[k] == left[..|IncludeMarker|][k] == IncludeMarker[k] == 'e';
      assert |t| > k;
      assert t[..|IncludeMarker|] == left[..|IncludeMarker|];
    }
    if StartsWith(t, IncludeMarker) {
      assert left[..|IncludeMarker|] == t[..|IncludeMarker|];
    }
  }

  lemma TrimmedDirective(s: string)
    ensures IsDirective(s) <==> StartsWith(Trim(s), IncludeMarker)
  {
    DirectiveAfterSpace(s);
    MarkerSurvivesTrailing(DropLeading(s, IsSpace));
  }

  /** The eligibility test of `_externalize_workflow_code`: non-empty after stripping, and not starting with the marker. */
  lemma EligibleMeansTrimmed(v: Value)
    ensures Eligible(v) <==> v.Str? && Trim(v.s) != [] && !StartsWith(Trim(v.s), IncludeMarker)
  {
    if v.Str? {
      BlankAllSpace(v.s);
      TrimmedDirective(v.s);
    }
  }

  // ---------------------------------------------------------------------
  // Nodes
  // ---------------------------------------------------------------------

  /** The parameters dict of a node the export looks into: a dict node whose parameters are a dict. */
  function NodeParams(node: Value): (r: Option<Fields>)
    ensures r.Some? ==> node.Map?
  {
    if node.Map? then
      match GetOr(node.members, Str("parameters"), Map([]))
      case Map(ps) => Some(ps)
      case _ => None
    else None
  }

  /** `node.get("name", "unnamed")`. */
  function NodeName(node: Value): Value
    requires node.Map?
  {
    GetOr(node.members, Str("name"), Str("unnamed"))
  }

  /** The body of the node loop: externalise one node's code fields. */
  function ExternalizeNode(node: Value, fields: seq<string>, safeWorkflow: string): (r: Result<Moved<Value>, ExportError>)
    ensures r.Ok? ==> r.value.count == |r.value.writes|
    ensures r.Ok? ==> forall w :: w in r.value.writes ==> StartsWith(w.path, "scripts/" + safeWorkflow + "/")
  {
    match NodeParams(node)
    case None => Ok(Moved(node, 0, []))
    case Some(params) =>
      var m :- ExternalizeFields(params, fields, safeWorkflow, NodeName(node));
      var rewritten :=
        if HasKey(node.members, Str("parameters"))
        then Map(Set(node.members, Str("parameters"), Map(m.result)))
        else node;
      Ok(Moved(rewritten, m.count, m.writes))
  }

  /** The parameters a visited node ends up with. */
  ghost function RewrittenParams(node: Value, fields: seq<string>, safeWorkflow: string): Fields
    requires NodeParams(node).Some?
  {
    var params := NodeParams(node).value;
    if NodeName(node).Str? then ExpectedParams(params, fields, safeWorkflow, SafeNode(NodeName(node))) else params
  }

  /** How many parameters of `node` the export replaces. */
  ghost function NodeReplacedCount(node: Value, fields: seq<string>): nat {
    match NodeParams(node)
    case None => 0
    case Some(params) => |ReplacedSet(params, fields)|
  }

  /** A node fails the export when it has code to move out but no string name. */
  ghost predicate NodeFails(node: Value, fields: seq<string>) {
    NodeParams(node).Some? && !NodeName(node).Str? && ReplacedSet(NodeParams(node).value, fields) != {}
  }

  /**
   * `after` is what the export makes of node `before`: a node it does not
   * look into is unchanged; a visited one keeps every member except its
   * parameters, which become the reference rewriting.
   */
  ghost predicate NodeRewritten(before: Value, after: Value, fields: seq<string>, safeWorkflow: string) {
    && (NodeParams(before).None? ==> after == before)
    && (NodeParams(before).Some? ==>
          && after.Map?
          && GetOr(after.members, Str("parameters"), Map([])) == Map(RewrittenParams(before, fields, safeWorkflow))
          && forall k :: k != Str("parameters") ==> Get(after.members, k) == Get(before.members, k))
  }

  /** Externalising a node fails exactly when it has code to move but no string name. */
  lemma NodeFailure(node: Value, fields: seq<string>, safeWorkflow: string)
    ensures ExternalizeNode(node, fields, safeWorkflow).Err? <==> NodeFails(node, fields)
  {
    if NodeParams(node).Some? {
      FieldsFail(NodeParams(node).value, fields, safeWorkflow, NodeName(node));
    }
  }

  /** The count for a node is the number of its replaced parameters. */
  lemma NodeCount(node: Value, fields: seq<string>, safeWorkflow: string)
    ensures var r := ExternalizeNode(node, fields, safeWorkflow);
      r.Ok? ==> r.value.count == NodeReplacedCount(node, fields)
  {
    if NodeParams(node).Some? {
      FieldsCount(NodeParams(node).value, fields, safeWorkflow, NodeName(node));
    }
  }

  /** On success a node is rewritten as `NodeRewritten` describes. */
  lemma NodeRewrite(node: Value, fields: seq<string>, safeWorkflow: string)
    ensures var r := ExternalizeNode(node, fields, safeWorkflow);
      r.Ok? ==> NodeRewritten(node, r.value.result, fields, safeWorkflow)
  {
    if NodeParams(node).Some? {
      var params := NodeParams(node).value;
      var name := NodeName(node);
      FieldsParams(params, fields, safeWorkflow, name);
      var m := ExternalizeFields(params, fields, safeWorkflow, name);
      if m.Ok? && !HasKey(node.members, Str("parameters")) {
        assert params == [];
        assert ExpectedParams(params, fields, safeWorkflow, "") == [];
        if name.Str? {
          assert ExpectedParams(params, fields, safeWorkflow, SafeNode(name)) == [];
        }
      }
    }
  }

  /** Parameter `j` of `node` is replaced and the node has a string name to file it under. */
  ghost predicate NodeReplaces(node: Value, j: int, fields: seq<string>) {
    NodeParams(node).Some? && NodeName(node).Str? && Replaced(NodeParams(node).value, j, fields)
  }

  /** The script the export writes for replaced parameter `j` of `node`. */
  ghost function NodeWrite(node: Value, j: int, fields: seq<string>, safeWorkflow: string): ScriptWrite
    requires NodeReplaces(node, j, fields)
  {
    WriteFor(NodeParams(node).value, j, safeWorkflow, SafeNode(NodeName(node)))
  }

  /** The scripts node `node` writes: one per replaced parameter. */
  ghost predicate NodeWritesReplaced(node: Value, fields: seq<string>, safeWorkflow: string) {
    var r := ExternalizeNode(node, fields, safeWorkflow);
    r.Ok? ==> forall w :: w in r.value.writes <==>
      exists j :: NodeReplaces(node, j, fields) && w == NodeWrite(node, j, fields, safeWorkflow)
  }

  /** The scripts a node writes are those of its replaced parameters. */
  lemma NodeWrites(node: Value, fields: seq<string>, safeWorkflow: string)
    ensures NodeWritesReplaced(node, fields, safeWorkflow)
  {
    if NodeParams(node).Some? {
      if NodeName(node).Str? {
        NamedNodeWrites(node, fields, safeWorkflow);
      } else {
        UnnamedNodeWrites(node, fields, safeWorkflow);
      }
    }
  }

  lemma NamedNodeWrites(node: Value, fields: seq<string>, safeWorkflow: string)
    requires NodeParams(node).Some? && NodeName(node).Str?
    ensures NodeWritesReplaced(node, fields, safeWorkflow)
  {
    var params := NodeParams(node).value;
    FieldsWrites(params, fields, safeWorkflow, NodeName(node));
    var m := ExternalizeFields(params, fields, safeWorkflow, NodeName(node)).value;
    assert ExternalizeNode(node, fields, safeWorkflow).value.writes == m.writes;
    NodeWritesFromFields(node, fields, safeWorkflow, m.writes);
  }

  lemma NodeWritesFromFields(node: Value, fields: seq<string>, safeWorkflow: string, writes: seq<ScriptWrite>)
    requires NodeParams(node).Some? && NodeName(node).Str?
    requires forall w :: w in writes <==>
      exists j :: Replaced(NodeParams(node).value, j, fields)
        && w == WriteFor(NodeParams(node).value, j, safeWorkflow, SafeNode(NodeName(node)))
    ensures forall w :: w in writes <==> exists j :: NodeReplaces(node, j, fields) && w == NodeWrite(node, j, fields, safeWorkflow)
  {
    forall w | w in writes
      ensures exists j :: NodeReplaces(node, j, fields) && w == NodeWrite(node, j, fields, safeWorkflow)
    {
      var j :| Replaced(NodeParams(node).value, j, fields)
        && w == WriteFor(NodeParams(node).value, j, safeWorkflow, SafeNode(NodeName(node)));
      assert NodeReplaces(node, j, fields) && w == NodeWrite(node, j, fields, safeWorkflow);
    }
  }

  lemma UnnamedNodeWrites(node: Value, fields: seq<string>, safeWorkflow: string)
    requires NodeParams(node).Some? && !NodeName(node).Str?
    ensures NodeWritesReplaced(node, fields, safeWorkflow)
  {
    var params := NodeParams(node).value;
    FieldsFail(params, fields, safeWorkflow, NodeName(node));
    FieldsCount(params, fields, safeWorkflow, NodeName(node));
  }

  // ---------------------------------------------------------------------
  // The workflow
  // ---------------------------------------------------------------------

  /** The node loop, in document order; the first failing node stops the export. */
  function ExternalizeNodes(nodes: seq<Value>, fields: seq<string>, safeWorkflow: string): (r: Result<Moved<seq<Value>>, ExportError>)
    ensures r.Ok? ==> r.value.count == |r.value.writes|
    ensures r.Ok? ==> |r.value.result| == |nodes|
    ensures r.Ok? ==> forall w :: w in r.value.writes ==> StartsWith(w.path, "scripts/" + safeWorkflow + "/")
  {
    if nodes == [] then Ok(Moved([], 0, []))
    else
      var first :- ExternalizeNode(nodes[0], fields, safeWorkflow);
      var rest :- ExternalizeNodes(nodes[1..], fields, safeWorkflow);
      Ok(Moved([first.result] + rest.result, first.count + rest.count, first.writes + rest.writes))
  }

  /**
   * `_externalize_workflow_code`: the rewritten workflow, the number of
   * code values moved out, and the script files written, in order.
   */
  function ExternalizeWorkflowCode(workflow: Fields, workflowName: string, codeFields: seq<string>): (r: Result<Moved<Fields>, ExportError>)
    ensures r.Ok? ==> r.value.count == |r.value.writes|
    ensures !GetOr(workflow, Str("nodes"), List([])).List? ==> r == Ok(Moved(workflow, 0, []))
    ensures r.Ok? ==> forall k :: k != Str("nodes") ==> Get(r.value.result, k) == Get(workflow, k)
    ensures r.Ok? ==> forall w :: w in r.value.writes ==> StartsWith(w.path, "scripts/" + SanitizeFilename(workflowName) + "/")
  {
    var safeWorkflow := SanitizeFilename(workflowName);
    var nodes := GetOr(workflow, Str("nodes"), List([]));
    if !nodes.List? then Ok(Moved(workflow, 0, []))
    else
      var m :- ExternalizeNodes(nodes.items, codeFields, safeWorkflow);
      var rewritten := if HasKey(workflow, Str("nodes")) then Set(workflow, Str("nodes"), List(m.result)) else workflow;
      Ok(Moved(rewritten, m.count, m.writes))
  }

  /**
   * `_externalize_workflow_code` called with the workflow's `name` as the
   * export loop read it: any truthy value gets through that loop, and one
   * that is not a string makes `_sanitize_filename` raise before the nodes
   * are looked at.
   */
  function ExportWorkflowCode(workflow: Fields, workflowName: Value, codeFields: seq<string>): (r: Result<Moved<Fields>, ExportError>)
    ensures (r.Err? && r.error.WorkflowNameNotString?) <==> !workflowName.Str?
    ensures !workflowName.Str? ==> r.error.name == workflowName
    ensures workflowName.Str? ==> r == ExternalizeWorkflowCode(workflow, workflowName.s, codeFields)
  {
    if !workflowName.Str? then Err(WorkflowNameNotString(workflowName))
    else
      var r := ExternalizeWorkflowCode(workflow, workflowName.s, codeFields);
      assert r.Err? ==> r.error.NodeNameNotString? by {
        ExternalizeFailsOnNodeName(workflow, workflowName.s, codeFields);
      }
      r
  }

  /** The only way the export of a named workflow fails is a node name that is not a string. */
  lemma ExternalizeFailsOnNodeName(workflow: Fields, workflowName: string, codeFields: seq<string>)
    ensures ExternalizeWorkflowCode(workflow, workflowName, codeFields).Err? ==>
      ExternalizeWorkflowCode(workflow, workflowName, codeFields).error.NodeNameNotString?
  {
    var nodes := GetOr(workflow, Str("nodes"), List([]));
    if nodes.List? {
      NodesErrorIsNodeName(nodes.items, codeFields, SanitizeFilename(workflowName));
    }
  }

  lemma {:induction false} FieldsErrorIsNodeName(params: Fields, fields: seq<string>, safeWorkflow: string, nodeName: Value)
    ensures var r := ExternalizeFields(params, fields, safeWorkflow, nodeName);
      r.Err? ==> r.error == NodeNameNotString(nodeName)
    decreases |fields|
  {
    if fields != [] {
      var key := Str(fields[0]);
      var at := IndexOf(params, key);
      if at.Some? && Eligible(params[at.value].1) {
        if nodeName.Str? {
          var path := ScriptPath(safeWorkflow, SanitizeFilename(nodeName.s), fields[0]);
          FieldsErrorIsNodeName(params[at.value := (key, Str(Directive(path)))], fields[1..], safeWorkflow, nodeName);
        }
      } else {
        FieldsErrorIsNodeName(params, fields[1..], safeWorkflow, nodeName);
      }
    }
  }

  lemma {:induction false} NodesErrorIsNodeName(nodes: seq<Value>, fields: seq<string>, safeWorkflow: string)
    ensures var r := ExternalizeNodes(nodes, fields, safeWorkflow);
      r.Err? ==> r.error.NodeNameNotString?
    decreases |nodes|
  {
    if nodes != [] {
      if NodeParams(nodes[0]).Some? {
        FieldsErrorIsNodeName(NodeParams(nodes[0]).value, fields, safeWorkflow, NodeName(nodes[0]));
      }
      NodesErrorIsNodeName(nodes[1..], fields, safeWorkflow);
    }
  }

  /** The number of parameters the export replaces across `nodes`. */
  ghost function TotalReplaced(nodes: seq<Value>, fields: seq<string>): nat {
    if nodes == [] then 0
    else
      NodeReplacedCount(nodes[0], fields) + TotalReplaced(nodes[1..], fields)
  }

  /** Node `i` is visited, has a string name, and its parameter `j` is replaced. */
  ghost predicate ReplacedIn(nodes: seq<Value>, i: int, j: int, fields: seq<string>) {
    0 <= i < |nodes| && NodeReplaces(nodes[i], j, fields)
  }


  /** The node loop fails exactly when some node fails. */
  lemma {:induction false} NodesFail(nodes: seq<Value>, fields: seq<string>, safeWorkflow: string)
    ensures ExternalizeNodes(nodes, fields, safeWorkflow).Err? <==> exists i :: 0 <= i < |nodes| && NodeFails(nodes[i], fields)
  {
    if nodes != [] {
      NodeFailure(nodes[0], fields, safeWorkflow);
      NodesFail(nodes[1..], fields, safeWorkflow);
      var fails := n => NodeFails(n, fields);
      SomeCons(nodes, fails);
      assert (exists i :: 0 <= i < |nodes| && NodeFails(nodes[i], fields))
        <==> (exists i :: 0 <= i < |nodes| && fails(nodes[i]));
      assert (exists i :: 0 <= i < |nodes[1..]| && NodeFails(nodes[1..][i], fields))
        <==> (exists i :: 0 <= i < |nodes[1..]| && fails(nodes[1..][i]));
    }
  }

  /** Some element satisfies `p` exactly when the head or some element of the tail does. */
  lemma SomeCons<A>(xs: seq<A>, p: A -> bool)
    requires xs != []
    ensures (exists i :: 0 <= i < |xs| && p(xs[i]))
        <==> p(xs[0]) || exists i :: 0 <= i < |xs[1..]| && p(xs[1..][i])
  {
    if exists i :: 1 <= i < |xs| && p(xs[i]) {
      var i :| 1 <= i < |xs| && p(xs[i]);
      assert p(xs[1..][i - 1]);
    }
    if exists i :: 0 <= i < |xs[1..]| && p(xs[1..][i]) {
      var i :| 0 <= i < |xs[1..]| && p(xs[1..][i]);
      assert p(xs[i + 1]);
    }
  }

  /** The node loop reports the number of replaced parameters across all nodes. */
  lemma {:induction false} NodesCount(nodes: seq<Value>, fields: seq<string>, safeWorkflow: string)
    ensures var r := ExternalizeNodes(nodes, fields, safeWorkflow);
      r.Ok? ==> r.value.count == TotalReplaced(nodes, fields)
  {
    if nodes != [] {
      NodeCount(nodes[0], fields, safeWorkflow);
      NodesCount(nodes[1..], fields, safeWorkflow);
    }
  }

  /** On success the node loop rewrites each node as a single node is rewritten. */
  ghost predicate NodesRewriteEach(nodes: seq<Value>, fields: seq<string>, safeWorkflow: string) {
    var r := ExternalizeNodes(nodes, fields, safeWorkflow);
    r.Ok? ==> forall i :: 0 <= i < |nodes| ==> NodeRewritten(nodes[i], r.value.result[i], fields, safeWorkflow)
  }

  lemma {:induction false} NodesRewritten(nodes: seq<Value>, fields: seq<string>, safeWorkflow: string)
    ensures NodesRewriteEach(nodes, fields, safeWorkflow)
  {
    if nodes != [] && ExternalizeNodes(nodes, fields, safeWorkflow).Ok? {
      NodesRewritten(nodes[1..], fields, safeWorkflow);
      NodesRewrittenStep(nodes, fields, safeWorkflow);
    }
  }

  lemma NodesRewrittenStep(nodes: seq<Value>, fields: seq<string>, safeWorkflow: string)
    requires nodes != [] && ExternalizeNodes(nodes, fields, safeWorkflow).Ok?
    requires NodesRewriteEach(nodes[1..], fields, safeWorkflow)
    ensures NodesRewriteEach(nodes, fields, safeWorkflow)
  {
    var r := ExternalizeNodes(nodes, fields, safeWorkflow).value;
    var first := ExternalizeNode(nodes[0], fields, safeWorkflow).value;
    var rest := ExternalizeNodes(nodes[1..], fields, safeWorkflow).value;
    assert r.result == [first.result] + rest.result;
    NodeRewrite(nodes[0], fields, safeWorkflow);
    var rel := (a, b) => NodeRewritten(a, b, fields, safeWorkflow);
    assert forall i :: 0 <= i < |nodes[1..]| ==> rel(nodes[1..][i], rest.result[i]);
    PointwiseCons(nodes, first.result, rest.result, rel);
    assert forall i :: 0 <= i < |nodes| ==> rel(nodes[i], r.result[i]);
  }

  /** A relation that holds pointwise for the head and for the tail holds pointwise for the list. */
  lemma PointwiseCons<A, B>(xs: seq<A>, first: B, rest: seq<B>, rel: (A, B) -> bool)
    requires xs != [] && |rest| == |xs| - 1
    requires rel(xs[0], first)
    requires forall i :: 0 <= i < |xs[1..]| ==> rel(xs[1..][i], rest[i])
    ensures forall i :: 0 <= i < |xs| ==> rel(xs[i], ([first] + rest)[i])
  {
    forall i | 1 <= i < |xs|
      ensures rel(xs[i], ([first] + rest)[i])
    {
      assert xs[i] == xs[1..][i - 1];
      assert ([first] + rest)[i] == rest[i - 1];
    }
  }

  /** The scripts the node loop writes: one per replaced parameter of any node. */
  ghost predicate NodesWriteReplaced(nodes: seq<Value>, fields: seq<string>, safeWorkflow: string) {
    var r := ExternalizeNodes(nodes, fields, safeWorkflow);
    r.Ok? ==> forall w :: w in r.value.writes <==>
      exists i, j :: ReplacedIn(nodes, i, j, fields) && w == NodeWrite(nodes[i], j, fields, safeWorkflow)
  }

  /** The node loop writes exactly one script per replaced parameter of any node. */
  lemma {:induction false} NodesWrites(nodes: seq<Value>, fields: seq<string>, safeWorkflow: string)
    ensures NodesWriteReplaced(nodes, fields, safeWorkflow)
  {
    if nodes != [] && ExternalizeNodes(nodes, fields, safeWorkflow).Ok? {
      NodesWrites(nodes[1..], fields, safeWorkflow);
      NodesWritesStep(nodes, fields, safeWorkflow);
    }
  }

  lemma NodesWritesStep(nodes: seq<Value>, fields: seq<string>, safeWorkflow: string)
    requires nodes != [] && ExternalizeNodes(nodes, fields, safeWorkflow).Ok?
    requires NodesWriteReplaced(nodes[1..], fields, safeWorkflow)
    ensures NodesWriteReplaced(nodes, fields, safeWorkflow)
  {
    var r := ExternalizeNodes(nodes, fields, safeWorkflow);
    var first := ExternalizeNode(nodes[0], fields, safeWorkflow).value;
    var rest := ExternalizeNodes(nodes[1..], fields, safeWorkflow).value;
    assert r.value.writes == first.writes + rest.writes;
    NodeWrites(nodes[0], fields, safeWorkflow);
    ConcatWrites(nodes, fields, safeWorkflow, first.writes, rest.writes);
  }

  lemma ConcatWrites(nodes: seq<Value>, fields: seq<string>, safeWorkflow: string, first: seq<ScriptWrite>, rest: seq<ScriptWrite>)
    requires nodes != []
    requires forall w :: w in first <==> exists j :: NodeReplaces(nodes[0], j, fields) && w == NodeWrite(nodes[0], j, fields, safeWorkflow)
    requires forall w :: w in rest <==>
      exists i, j :: ReplacedIn(nodes[1..], i, j, fields) && w == NodeWrite(nodes[1..][i], j, fields, safeWorkflow)
    ensures forall w :: w in first + rest <==>
      exists i, j :: ReplacedIn(nodes, i, j, fields) && w == NodeWrite(nodes[i], j, fields, safeWorkflow)
  {
    forall w | w in first
      ensures exists j :: ReplacedIn(nodes, 0, j, fields) && w == NodeWrite(nodes[0], j, fields, safeWorkflow)
    {
      var j :| NodeReplaces(nodes[0], j, fields) && w == NodeWrite(nodes[0], j, fields, safeWorkflow);
      assert ReplacedIn(nodes, 0, j, fields);
    }
    forall w | w in rest
      ensures exists i, j :: ReplacedIn(nodes, i, j, fields) && w == NodeWrite(nodes[i], j, fields, safeWorkflow)
    {
      var i, j :| ReplacedIn(nodes[1..], i, j, fields) && w == NodeWrite(nodes[1..][i], j, fields, safeWorkflow);
      assert nodes[1..][i] == nodes[i + 1];
      assert ReplacedIn(nodes, i + 1, j, fields);
    }
    forall w, i, j | ReplacedIn(nodes, i, j, fields) && w == NodeWrite(nodes[i], j, fields, safeWorkflow)
      ensures w in first + rest
    {
      if i > 0 {
        assert nodes[1..][i - 1] == nodes[i];
        assert ReplacedIn(nodes[1..], i - 1, j, fields);
      }
    }
  }

  /** The nodes the export walks: the workflow's `nodes` list, absent meaning empty. */
  function WorkflowNodes(workflow: Fields): Option<seq<Value>> {
    match GetOr(workflow, Str("nodes"), List([]))
    case List(items) => Some(items)
    case _ => None
  }

  /** The export of a workflow fails exactly when one of its nodes fails. */
  lemma WorkflowFails(workflow: Fields, workflowName: string, codeFields: seq<string>)
    ensures ExternalizeWorkflowCode(workflow, workflowName, codeFields).Err? <==>
      WorkflowNodes(workflow).Some? &&
      exists i :: 0 <= i < |WorkflowNodes(workflow).value| && NodeFails(WorkflowNodes(workflow).value[i], codeFields)
  {
    if WorkflowNodes(workflow).Some? {
      NodesFail(WorkflowNodes(workflow).value, codeFields, SanitizeFilename(workflowName));
    }
  }

  /** The reported count is the number of replaced parameters across all nodes. */
  lemma WorkflowCount(workflow: Fields, workflowName: string, codeFields: seq<string>)
    ensures var r := ExternalizeWorkflowCode(workflow, workflowName, codeFields);
      r.Ok? ==> r.value.count == match WorkflowNodes(workflow) case None => 0 case Some(nodes) => TotalReplaced(nodes, codeFields)
  {
    if WorkflowNodes(workflow).Some? {
      NodesCount(WorkflowNodes(workflow).value, codeFields, SanitizeFilename(workflowName));
    }
  }

  /** On success the workflow's node list is rewritten node by node, in place. */
  lemma WorkflowRewritten(workflow: Fields, workflowName: string, codeFields: seq<string>)
    ensures var r := ExternalizeWorkflowCode(workflow, workflowName, codeFields);
      r.Ok? && WorkflowNodes(workflow).Some? ==>
        var before := WorkflowNodes(workflow).value;
        && WorkflowNodes(r.value.result).Some?
        && |WorkflowNodes(r.value.result).value| == |before|
        && forall i :: 0 <= i < |before| ==>
             NodeRewritten(before[i], WorkflowNodes(r.value.result).value[i], codeFields, SanitizeFilename(workflowName))
  {
    var r := ExternalizeWorkflowCode(workflow, workflowName, codeFields);
    if r.Ok? && WorkflowNodes(workflow).Some? {
      var nodes := WorkflowNodes(workflow).value;
      NodesRewritten(nodes, codeFields, SanitizeFilename(workflowName));
      var m := ExternalizeNodes(nodes, codeFields, SanitizeFilename(workflowName)).value;
      if HasKey(workflow, Str("nodes")) {
        assert WorkflowNodes(r.value.result) == Some(m.result);
      } else {
        assert nodes == [];
      }
    }
  }

  /** The scripts written: exactly one per replaced parameter of any node. */
  lemma WorkflowWrites(workflow: Fields, workflowName: string, codeFields: seq<string>)
    ensures var r := ExternalizeWorkflowCode(workflow, workflowName, codeFields);
      r.Ok? ==> forall w :: w in r.value.writes <==>
        WorkflowNodes(workflow).Some? &&
        exists i, j :: ReplacedIn(WorkflowNodes(workflow).value, i, j, codeFields)
          && w == NodeWrite(WorkflowNodes(workflow).value[i], j, codeFields, SanitizeFilename(workflowName))
  {
    if WorkflowNodes(workflow).Some? {
      NodesWrites(WorkflowNodes(workflow).value, codeFields, SanitizeFilename(workflowName));
    }
  }

  /** Reference order of one node's writes: its fields in order, or nothing when it has no parameters or name. */
  ghost function NodeWritesInOrder(node: Value, fields: seq<string>, safeWorkflow: string): seq<ScriptWrite> {
    match NodeParams(node)
    case None => []
    case Some(params) =>
      if NodeName(node).Str? then WritesInFieldOrder(params, fields, {}, safeWorkflow, SafeNode(NodeName(node))) else []
  }

  /** Reference order of a node list's writes: node by node in document order. */
  ghost function DocumentWrites(nodes: seq<Value>, fields: seq<string>, safeWorkflow: string): seq<ScriptWrite> {
    if nodes == [] then []
    else NodeWritesInOrder(nodes[0], fields, safeWorkflow) + DocumentWrites(nodes[1..], fields, safeWorkflow)
  }

  /** A node writes its scripts in the order of the code field names. */
  lemma NodeWriteOrder(node: Value, fields: seq<string>, safeWorkflow: string)
    ensures var r := ExternalizeNode(node, fields, safeWorkflow);
      r.Ok? ==> r.value.writes == NodeWritesInOrder(node, fields, safeWorkflow)
  {
    if NodeParams(node).Some? {
      var params := NodeParams(node).value;
      if NodeName(node).Str? {
        FieldsWriteOrder(params, fields, safeWorkflow, NodeName(node));
      } else {
        FieldsFail(params, fields, safeWorkflow, NodeName(node));
        FieldsCount(params, fields, safeWorkflow, NodeName(node));
      }
    }
  }

  /** The node loop writes node by node, in document order. */
  lemma {:induction false} NodesWriteOrder(nodes: seq<Value>, fields: seq<string>, safeWorkflow: string)
    ensures var r := ExternalizeNodes(nodes, fields, safeWorkflow);
      r.Ok? ==> r.value.writes == DocumentWrites(nodes, fields, safeWorkflow)
  {
    if nodes != [] {
      NodeWriteOrder(nodes[0], fields, safeWorkflow);
      NodesWriteOrder(nodes[1..], fields, safeWorkflow);
    }
  }

  /** The workflow's scripts are written node by node in document order, each node's in field order. */
  lemma WorkflowWriteOrder(workflow: Fields, workflowName: string, codeFields: seq<string>)
    ensures var r := ExternalizeWorkflowCode(workflow, workflowName, codeFields);
      r.Ok? ==> r.value.writes == match WorkflowNodes(workflow)
        case None => []
        case Some(nodes) => DocumentWrites(nodes, codeFields, SanitizeFilename(workflowName))
  {
    if WorkflowNodes(workflow).Some? {
      NodesWriteOrder(WorkflowNodes(workflow).value, codeFields, SanitizeFilename(workflowName));
    }
  }

  // ---------------------------------------------------------------------
  // The files on disk
  // ---------------------------------------------------------------------

  /** The script files after performing `writes` in order: a later write to a path replaces an earlier one. */
  function FinalFiles(writes: seq<ScriptWrite>): (files: map<string, string>)
    ensures files.Keys == set w | w in writes :: w.path
  {
    if writes == [] then map[]
    else
      var last := writes[|writes| - 1];
      FinalFiles(writes[..|writes| - 1])[last.path := last.content]
  }

  /** A file holds the content of the last write to its path. */
  lemma {:induction false} LastWriteWins(writes: seq<ScriptWrite>, i: nat)
    requires i < |writes|
    requires forall k :: i < k < |writes| ==> writes[k].path != writes[i].path
    ensures writes[i].path in FinalFiles(writes)
    ensures FinalFiles(writes)[writes[i].path] == writes[i].content
  {
    if i < |writes| - 1 {
      var init := writes[..|writes| - 1];
      LastWriteWins(init, i);
    }
  }

  /** Write `k` is the last write to path `p`. */
  ghost predicate IsLastWrite(writes: seq<ScriptWrite>, p: string, k: int) {
    && 0 <= k < |writes|
    && writes[k].path == p
    && forall k' :: k < k' < |writes| ==> writes[k'].path != p
  }

  /** Every file on disk holds the content of the last write to its path. */
  lemma {:induction false} FinalFilesLast(writes: seq<ScriptWrite>, p: string)
    requires p in FinalFiles(writes)
    ensures exists k :: IsLastWrite(writes, p, k) && FinalFiles(writes)[p] == writes[k].content
  {
    var last := writes[|writes| - 1];
    var init := writes[..|writes| - 1];
    if last.path == p {
      assert IsLastWrite(writes, p, |writes| - 1);
    } else {
      FinalFilesLast(init, p);
      var k :| IsLastWrite(init, p, k) && FinalFiles(init)[p] == init[k].content;
      LastWriteExtends(writes, p, k);
    }
  }

  lemma LastWriteExtends(writes: seq<ScriptWrite>, p: string, k: int)
    requires writes != [] && writes[|writes| - 1].path != p
    requires IsLastWrite(writes[..|writes| - 1], p, k)
    ensures IsLastWrite(writes, p, k) && writes[k] == writes[..|writes| - 1][k]
  {
  }

  /**
   * Every script file the export leaves holds the code of the last value,
   * in document order, that was moved out to its path.
   */
  lemma WorkflowFinalFiles(workflow: Fields, workflowName: string, codeFields: seq<string>, p: string)
    requires ExternalizeWorkflowCode(workflow, workflowName, codeFields).Ok?
    requires p in FinalFiles(ExternalizeWorkflowCode(workflow, workflowName, codeFields).value.writes)
    ensures WorkflowNodes(workflow).Some?
    ensures var files := FinalFiles(ExternalizeWorkflowCode(workflow, workflowName, codeFields).value.writes);
      var doc := DocumentWrites(WorkflowNodes(workflow).value, codeFields, SanitizeFilename(workflowName));
      exists k :: IsLastWrite(doc, p, k) && files[p] == doc[k].content
  {
    var writes := ExternalizeWorkflowCode(workflow, workflowName, codeFields).value.writes;
    WorkflowWriteOrder(workflow, workflowName, codeFields);
    FinalFilesLast(writes, p);
  }

  /**
   * Two nodes whose names sanitise alike and which both hold code under
   * the same field write the same file, and the later node's code is what
   * the file finally holds.
   */
  lemma SameNameLaterWins(workflow: Fields, workflowName: string, field: string, a: Value, b: Value)
    requires WorkflowNodes(workflow) == Some([a, b])
    requires NodeParams(a).Some? && NodeName(a).Str? && NodeParams(b).Some? && NodeName(b).Str?
    requires SafeNode(NodeName(a)) == SafeNode(NodeName(b))
    requires var at := IndexOf(NodeParams(a).value, Str(field)); at.Some? && Eligible(NodeParams(a).value[at.value].1)
    requires var at := IndexOf(NodeParams(b).value, Str(field)); at.Some? && Eligible(NodeParams(b).value[at.value].1)
    ensures var r := ExternalizeWorkflowCode(workflow, workflowName, [field]);
      var path := ScriptPath(SanitizeFilename(workflowName), SafeNode(NodeName(b)), field);
      && r.Ok?
      && |r.value.writes| == 2
      && r.value.writes[0].path == path && r.value.writes[1].path == path
      && path in FinalFiles(r.value.writes)
      && FinalFiles(r.value.writes)[path] == NodeParams(b).value[IndexOf(NodeParams(b).value, Str(field)).value].1.s
  {
    var sw := SanitizeFilename(workflowName);
    TwoNamedNodesSucceed(workflow, workflowName, field, a, b);
    WorkflowWriteOrder(workflow, workflowName, [field]);
    SingleFieldWrite(a, field, sw);
    SingleFieldWrite(b, field, sw);
    DocumentWritesOfTwo(a, b, [field], sw);
    var r := ExternalizeWorkflowCode(workflow, workflowName, [field]).value;
    LastWriteWins(r.writes, 1);
  }

  lemma DocumentWritesOfTwo(a: Value, b: Value, fields: seq<string>, safeWorkflow: string)
    ensures DocumentWrites([a, b], fields, safeWorkflow)
         == NodeWritesInOrder(a, fields, safeWorkflow) + NodeWritesInOrder(b, fields, safeWorkflow)
  {
    var nodes := [a, b];
    assert nodes[1..] == [b];
    assert [b][1..] == [];
    assert DocumentWrites([b], fields, safeWorkflow) == NodeWritesInOrder(b, fields, safeWorkflow) + [];
  }

  lemma TwoNamedNodesSucceed(workflow: Fields, workflowName: string, field: string, a: Value, b: Value)
    requires WorkflowNodes(workflow) == Some([a, b])
    requires NodeParams(a).Some? ==> NodeName(a).Str?
    requires NodeParams(b).Some? ==> NodeName(b).Str?
    ensures ExternalizeWorkflowCode(workflow, workflowName, [field]).Ok?
  {
    var nodes := [a, b];
    WorkflowFails(workflow, workflowName, [field]);
    forall i | 0 <= i < |nodes|
      ensures !NodeFails(nodes[i], [field])
    {
    }
  }

  /** A named node holding code under the one field name writes exactly that code, under its name. */
  lemma SingleFieldWrite(node: Value, field: string, safeWorkflow: string)
    requires NodeParams(node).Some? && NodeName(node).Str?
    requires var at := IndexOf(NodeParams(node).value, Str(field)); at.Some? && Eligible(NodeParams(node).value[at.value].1)
    ensures var params := NodeParams(node).value;
      var at := IndexOf(params, Str(field)).value;
      NodeWritesInOrder(node, [field], safeWorkflow)
        == [ScriptWrite(ScriptPath(safeWorkflow, SafeNode(NodeName(node)), field), params[at].1.s)]
  {
    OneFieldWrite(NodeParams(node).value, field, safeWorkflow, SafeNode(NodeName(node)));
  }

  lemma OneFieldWrite(params: Fields, field: string, safeWorkflow: string, safeNode: string)
    requires var at := IndexOf(params, Str(field)); at.Some? && Eligible(params[at.value].1)
    ensures WritesInFieldOrder(params, [field], {}, safeWorkflow, safeNode)
         == [WriteFor(params, IndexOf(params, Str(field)).value, safeWorkflow, safeNode)]
  {
    var fields := [field];
    assert fields[1..] == [];
    assert WritesInFieldOrder(params, [], {field}, safeWorkflow, safeNode) == [];
  }

  ghost predicate DistinctPaths(writes: seq<ScriptWrite>) {
    forall a, b :: 0 <= a < b < |writes| ==> writes[a].path != writes[b].path
  }

  /** The directive a rewritten node holds in place of its replaced parameter `j`. */
  ghost predicate HoldsDirective(after: Value, j: int, key: Value, path: string) {
    && after.Map?
    && var params := GetOr(after.members, Str("parameters"), Map([]));
    && params.Map?
    && 0 <= j < |params.members|
    && params.members[j] == (key, Str(Directive(path)))
  }

  lemma NodeDirective(before: Value, after: Value, j: int, fields: seq<string>, safeWorkflow: string)
    requires NodeRewritten(before, after, fields, safeWorkflow) && NodeReplaces(before, j, fields)
    ensures HoldsDirective(after, j, NodeParams(before).value[j].0, NodeWrite(before, j, fields, safeWorkflow).path)
  {
  }

  /** The include directive the export leaves in place of parameter `j` of node `i`. */
  lemma WorkflowDirective(workflow: Fields, workflowName: string, codeFields: seq<string>, i: int, j: int)
    requires ExternalizeWorkflowCode(workflow, workflowName, codeFields).Ok?
    requires WorkflowNodes(workflow).Some? && ReplacedIn(WorkflowNodes(workflow).value, i, j, codeFields)
    ensures var r := ExternalizeWorkflowCode(workflow, workflowName, codeFields).value;
      var node := WorkflowNodes(workflow).value[i];
      && WorkflowNodes(r.result).Some?
      && i < |WorkflowNodes(r.result).value|
      && HoldsDirective(WorkflowNodes(r.result).value[i], j, NodeParams(node).value[j].0,
           NodeWrite(node, j, codeFields, SanitizeFilename(workflowName)).path)
  {
    var r := ExternalizeWorkflowCode(workflow, workflowName, codeFields).value;
    WorkflowRewritten(workflow, workflowName, codeFields);
    var before := WorkflowNodes(workflow).value[i];
    var after := WorkflowNodes(r.result).value[i];
    NodeDirective(before, after, j, codeFields, SanitizeFilename(workflowName));
  }

  /**
   * Round trip: when no two scripts share a path, the file named by the
   * directive left for a replaced code value finally holds exactly that code.
   */
  lemma WorkflowRoundTrip(workflow: Fields, workflowName: string, codeFields: seq<string>, i: int, j: int)
    requires ExternalizeWorkflowCode(workflow, workflowName, codeFields).Ok?
    requires DistinctPaths(ExternalizeWorkflowCode(workflow, workflowName, codeFields).value.writes)
    requires WorkflowNodes(workflow).Some? && ReplacedIn(WorkflowNodes(workflow).value, i, j, codeFields)
    ensures var r := ExternalizeWorkflowCode(workflow, workflowName, codeFields).value;
      var node := WorkflowNodes(workflow).value[i];
      var w := NodeWrite(node, j, codeFields, SanitizeFilename(workflowName));
      && w.path in FinalFiles(r.writes)
      && FinalFiles(r.writes)[w.path] == NodeParams(node).value[j].1.s
  {
    var r := ExternalizeWorkflowCode(workflow, workflowName, codeFields).value;
    var nodes := WorkflowNodes(workflow).value;
    WorkflowWrites(workflow, workflowName, codeFields);
    var w := NodeWrite(nodes[i], j, codeFields, SanitizeFilename(workflowName));
    assert w in r.writes;
    var k :| 0 <= k < |r.writes| && r.writes[k] == w;
    LastWriteWins(r.writes, k);
  }

  lemma NoEqualsInSanitized(name: string)
    ensures '=' !in SanitizeFilename(name)
  {
    SafeHasNoEquals(SanitizeFilename(name));
  }

  lemma NoEqualsInDirective(safeWorkflow: string, safeNode: string, field: string)
    requires '=' !in safeWorkflow && '=' !in safeNode
    ensures '=' !in Directive(ScriptPath(safeWorkflow, safeNode, field))
  {
    var ext := FileExtension(field);
    assert '=' !in ext;
    var path := ScriptPath(safeWorkflow, safeNode, field);
    assert path == "scripts/" + safeWorkflow + "/" + safeNode + ext;
    assert '=' !in path;
    assert '=' !in IncludeMarker;
  }

  /** The directives the export writes never carry a `sha256=` checksum. */
  lemma DirectiveCarriesNoChecksum(workflowName: string, nodeName: string, field: string)
    ensures !Contains(Directive(ScriptPath(SanitizeFilename(workflowName), SanitizeFilename(nodeName), field)), "sha256=")
  {
    var d := Directive(ScriptPath(SanitizeFilename(workflowName), SanitizeFilename(nodeName), field));
    NoEqualsInSanitized(workflowName);
    NoEqualsInSanitized(nodeName);
    NoEqualsInDirective(SanitizeFilename(workflowName), SanitizeFilename(nodeName), field);
    MissingCharNotContained(d, "sha256=", 6);
  }
}
