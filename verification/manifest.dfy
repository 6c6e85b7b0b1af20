/**
 * The workflow manifest (`n8n/manifests/workflows.yaml`): which workflows
 * the repository manages and what each one needs. Loading starts from the
 * parsed YAML tree; reading the file and parsing its text are opaque steps
 * whose two failures are kept as error cases.
 */
module Manifests {
  import opened Wrappers
  import opened JsonValue
  import opened Filenames

  /** One entry of the manifest's `workflows` list. */
  datatype WorkflowSpec = WorkflowSpec(
    name: string,
    active: bool,
    tags: seq<string>,
    requiresCredentials: seq<string>,
    requiresEnv: seq<string>)

  /** The loaded manifest; `tags` maps tag ids to tag names, in document order. */
  datatype Manifest = Manifest(
    workflows: seq<WorkflowSpec>,
    externalizeCode: bool,
    tags: seq<(string, string)>)

  /** What reading and parsing the manifest file produced. */
  datatype Source = Unreadable | Unparsable | Parsed(data: Value)

  datatype ManifestError =
    | ReadFailed
    | ParseFailed
    | RootNotMap
    | ExternalizeCodeNotBool
    | TagsNotMap
    | TagNotString
    | MissingWorkflows
    | WorkflowsNotList
    | EntryNotMap(index: nat)
    | EntryMissingName(index: nat)
    | NameInvalid(index: nat)
    | DuplicateName(name: string)
    | ActiveNotBool(index: nat)
    | FieldNotList(index: nat, field: string)
    | FieldElemNotString(index: nat, field: string)

  /** `WorkflowSpec.file`: where the workflow's JSON lives, derived from its name. */
  function WorkflowFile(spec: WorkflowSpec): (path: string)
    ensures |path| > |"workflows/.json"|
    ensures path[..|"workflows/"|] == "workflows/"
    ensures path[|path| - |".json"|..] == ".json"
    ensures path[|"workflows/"|..|path| - |".json"|] == SanitizeFilename(spec.name)
  {
    var safe := SanitizeFilename(spec.name);
    ConcatSlices("workflows/", safe, ".json");
    "workflows/" + safe + ".json"
  }

  /** The three parts of a concatenation are its slices. */
  lemma ConcatSlices(a: string, b: string, c: string)
    ensures var s := a + b + c;
      && |s| == |a| + |b| + |c|
      && s[..|a|] == a && s[|s| - |c|..] == c && s[|a|..|s| - |c|] == b
  {
    var s := a + b + c;
    assert s[..|a|] == a;
    assert s[|a| + |b|..] == c;
    assert s[|a|..|a| + |b|] == b;
  }

  lemma NoSlashAfterPrefix(path: string, prefix: string, name: string, suffix: string)
    requires path == prefix + name + suffix
    requires forall i :: 0 <= i < |name| ==> name[i] != '/'
    requires forall i :: 0 <= i < |suffix| ==> suffix[i] != '/'
    ensures forall i :: |prefix| <= i < |path| ==> path[i] != '/'
  {
    forall i | |prefix| <= i < |path|
      ensures path[i] != '/'
    {
      if i < |prefix| + |name| {
        assert path[i] == name[i - |prefix|];
      } else {
        assert path[i] == suffix[i - |prefix| - |name|];
      }
    }
  }

  lemma JsonHasNoSlash()
    ensures forall i :: 0 <= i < |".json"| ==> ".json"[i] != '/'
  {
    assert ".json" == ['.', 'j', 's', 'o', 'n'];
  }

  /** The workflow file sits directly in `workflows/`: its name holds no `/`. */
  lemma WorkflowFileInDirectory(spec: WorkflowSpec)
    ensures var path := WorkflowFile(spec);
      forall i :: |"workflows/"| <= i < |path| ==> path[i] != '/'
  {
    JsonHasNoSlash();
    NoSlashAfterPrefix(WorkflowFile(spec), "workflows/", SanitizeFilename(spec.name), ".json");
  }

  /** Every element is a string. */
  predicate AllStrings(items: seq<Value>) {
    forall i :: 0 <= i < |items| ==> items[i].Str?
  }

  /** The strings of a list whose elements are all strings. */
  function Strings(items: seq<Value>): (r: seq<string>)
    requires AllStrings(items)
    ensures |r| == |items| && forall i :: 0 <= i < |items| ==> items[i] == Str(r[i])
  {
    seq(|items|, i requires 0 <= i < |items| => items[i].s)
  }

  /** One of the optional list-of-strings fields of entry `index`. */
  function StringList(v: Value, index: nat, field: string): (r: Result<seq<string>, ManifestError>)
    ensures r.Ok? <==> v.List? && AllStrings(v.items)
    ensures r.Ok? ==> |r.value| == |v.items| && forall i :: 0 <= i < |v.items| ==> v.items[i] == Str(r.value[i])
    ensures !v.List? ==> r == Err(FieldNotList(index, field))
    ensures v.List? && !AllStrings(v.items) ==> r == Err(FieldElemNotString(index, field))
  {
    if !v.List? then Err(FieldNotList(index, field))
    else if !AllStrings(v.items) then Err(FieldElemNotString(index, field))
    else Ok(Strings(v.items))
  }

  /** Every key and value of the tags mapping is a string. */
  predicate StringPairs(members: Fields) {
    forall i :: 0 <= i < |members| ==> members[i].0.Str? && members[i].1.Str?
  }

  /** The manifest's top-level `tags` mapping. */
  function Tags(v: Value): (r: Result<seq<(string, string)>, ManifestError>)
    ensures r.Ok? <==> v.Map? && StringPairs(v.members)
    ensures r.Ok? ==> |r.value| == |v.members|
    ensures r.Ok? ==> forall i :: 0 <= i < |v.members| ==> v.members[i] == (Str(r.value[i].0), Str(r.value[i].1))
    ensures !v.Map? ==> r == Err(TagsNotMap)
  {
    if !v.Map? then Err(TagsNotMap)
    else if !StringPairs(v.members) then Err(TagNotString)
    else Ok(seq(|v.members|, i requires 0 <= i < |v.members| => (v.members[i].0.s, v.members[i].1.s)))
  }

  /** An error raised while checking a workflow entry. */
  predicate IsEntryError(e: ManifestError) {
    e.EntryNotMap? || e.EntryMissingName? || e.NameInvalid? || e.DuplicateName?
    || e.ActiveNotBool? || e.FieldNotList? || e.FieldElemNotString?
  }

  /** An error about entry `index`: it names the entry, or the duplicated name. */
  predicate AboutEntry(e: ManifestError, index: nat) {
    IsEntryError(e) && (e.DuplicateName? || e.index == index)
  }

  /** One workflow entry, given the names of the entries before it. */
  function Entry(index: nat, v: Value, seen: set<string>): (r: Result<WorkflowSpec, ManifestError>)
    ensures r.Ok? ==> v.Map? && Get(v.members, Str("name")) == Some(Str(r.value.name))
    ensures r.Ok? ==> r.value.name != [] && r.value.name !in seen
    ensures r.Err? ==> AboutEntry(r.error, index)
  {
    if !v.Map? then Err(EntryNotMap(index))
    else if !HasKey(v.members, Str("name")) then Err(EntryMissingName(index))
    else
      var name := GetOr(v.members, Str("name"), Null);
      if !name.Str? || name.s == [] then Err(NameInvalid(index))
      else if name.s in seen then Err(DuplicateName(name.s))
      else
        var active := GetOr(v.members, Str("active"), Bool(false));
        if !active.Bool? then Err(ActiveNotBool(index))
        else
          var tags :- StringList(GetOr(v.members, Str("tags"), List([])), index, "tags");
          var creds :- StringList(GetOr(v.members, Str("requires_credentials"), List([])), index, "requires_credentials");
          var env :- StringList(GetOr(v.members, Str("requires_env"), List([])), index, "requires_env");
          Ok(WorkflowSpec(name.s, active.b, tags, creds, env))
  }

  /** The `workflows` list from entry `start` on, given the names seen so far. */
  function Entries(entries: seq<Value>, start: nat, seen: set<string>): (r: Result<seq<WorkflowSpec>, ManifestError>)
    ensures r.Ok? ==> |r.value| == |entries|
    ensures r.Err? ==> IsEntryError(r.error)
    decreases |entries|
  {
    if entries == [] then Ok([])
    else
      var spec :- Entry(start, entries[0], seen);
      var rest :- Entries(entries[1..], start + 1, seen + {spec.name});
      Ok([spec] + rest)
  }

  /** `load_manifest`, from the outcome of reading and parsing the file. */
  function LoadManifest(source: Source): (r: Result<Manifest, ManifestError>)
    ensures source.Unreadable? ==> r == Err(ReadFailed)
    ensures source.Unparsable? ==> r == Err(ParseFailed)
    ensures source.Parsed? && !source.data.Map? ==> r == Err(RootNotMap)
    ensures r.Ok? ==> source.Parsed? && source.data.Map? && HasKey(source.data.members, Str("workflows"))
  {
    match source
    case Unreadable => Err(ReadFailed)
    case Unparsable => Err(ParseFailed)
    case Parsed(data) =>
      if !data.Map? then Err(RootNotMap)
      else
        var root := data.members;
        var externalize := GetOr(root, Str("externalize_code"), Bool(true));
        if !externalize.Bool? then Err(ExternalizeCodeNotBool)
        else
          var tags :- Tags(GetOr(root, Str("tags"), Map([])));
          if !HasKey(root, Str("workflows")) then Err(MissingWorkflows)
          else
            var list := GetOr(root, Str("workflows"), Null);
            if !list.List? then Err(WorkflowsNotList)
            else
              var workflows :- Entries(list.items, 0, {});
              Ok(Manifest(workflows, externalize.b, tags))
  }

  // ---------------------------------------------------------------------
  // Properties
  // ---------------------------------------------------------------------

  function Names(specs: seq<WorkflowSpec>): (r: set<string>)
    ensures forall i :: 0 <= i < |specs| ==> specs[i].name in r
    ensures forall n :: n in r ==> exists i :: 0 <= i < |specs| && specs[i].name == n
  {
    set i | 0 <= i < |specs| :: specs[i].name
  }

  /** Names are non-empty and pairwise distinct. */
  ghost predicate DistinctNames(specs: seq<WorkflowSpec>) {
    && (forall i :: 0 <= i < |specs| ==> specs[i].name != [])
    && (forall i, j :: 0 <= i < j < |specs| ==> specs[i].name != specs[j].name)
  }

  /** The names seen so far only matter for the duplicate check. */
  lemma EntrySeen(index: nat, v: Value, seen: set<string>)
    ensures var alone := Entry(index, v, {});
      && (Entry(index, v, seen).Ok? <==> alone.Ok? && alone.value.name !in seen)
      && (Entry(index, v, seen).Ok? ==> Entry(index, v, seen) == alone)
  {
  }

  /** What each entry yields on its own, ignoring the other entries' names. */
  function Singles(entries: seq<Value>, start: nat): (r: seq<Result<WorkflowSpec, ManifestError>>)
    ensures |r| == |entries|
    ensures forall i :: 0 <= i < |entries| ==> r[i] == Entry(start + i, entries[i], {})
  {
    seq(|entries|, i requires 0 <= i < |entries| => Entry(start + i, entries[i], {}))
  }

  /** Every outcome is a spec, and their names are pairwise distinct and not among `seen`. */
  ghost predicate Fresh(rs: seq<Result<WorkflowSpec, ManifestError>>, seen: set<string>) {
    && (forall i :: 0 <= i < |rs| ==> rs[i].Ok?)
    && (forall i :: 0 <= i < |rs| ==> rs[i].value.name !in seen)
    && (forall i, j :: 0 <= i < j < |rs| ==> rs[i].value.name != rs[j].value.name)
  }

  lemma FreshStep(rs: seq<Result<WorkflowSpec, ManifestError>>, seen: set<string>)
    requires rs != []
    ensures Fresh(rs, seen) <==>
      rs[0].Ok? && rs[0].value.name !in seen && Fresh(rs[1..], seen + {rs[0].value.name})
  {
    if rs[0].Ok? && rs[0].value.name !in seen && Fresh(rs[1..], seen + {rs[0].value.name}) {
      forall i, j | 0 <= i < j < |rs|
        ensures rs[i].Ok? && rs[j].Ok? && rs[i].value.name != rs[j].value.name
      {
        assert rs[j] == rs[1..][j - 1];
        if i > 0 {
          assert rs[i] == rs[1..][i - 1];
        }
      }
    }
  }

  lemma SinglesTail(entries: seq<Value>, start: nat)
    requires entries != []
    ensures Singles(entries[1..], start + 1) == Singles(entries, start)[1..]
  {
    var a := Singles(entries[1..], start + 1);
    var b := Singles(entries, start)[1..];
    forall i | 0 <= i < |a|
      ensures a[i] == b[i]
    {
      assert entries[1..][i] == entries[i + 1];
    }
  }

  /**
   * The entry loop succeeds exactly when every entry is valid on its own
   * and the names are pairwise distinct and new; the specs are then the
   * entries' own, in order.
   */
  lemma {:induction false} EntriesOk(entries: seq<Value>, start: nat, seen: set<string>)
    ensures Entries(entries, start, seen).Ok? <==> Fresh(Singles(entries, start), seen)
    ensures Entries(entries, start, seen).Ok? ==>
      forall i :: 0 <= i < |entries| ==> Singles(entries, start)[i] == Ok(Entries(entries, start, seen).value[i])
    decreases |entries|
  {
    if entries != [] {
      var rs := Singles(entries, start);
      EntrySeen(start, entries[0], seen);
      FreshStep(rs, seen);
      SinglesTail(entries, start);
      if rs[0].Ok? && rs[0].value.name !in seen {
        EntriesOk(entries[1..], start + 1, seen + {rs[0].value.name});
        var r := Entries(entries, start, seen);
        if r.Ok? {
          var rest := Entries(entries[1..], start + 1, seen + {rs[0].value.name});
          assert r.value == [rs[0].value] + rest.value;
          OkPointwise(rs, rs[0].value, rest.value);
        }
      }
    }
  }

  /** Results that are `Ok` pointwise at the head and along the tail are `Ok` pointwise throughout. */
  lemma OkPointwise(rs: seq<Result<WorkflowSpec, ManifestError>>, first: WorkflowSpec, rest: seq<WorkflowSpec>)
    requires rs != [] && |rest| == |rs| - 1 && rs[0] == Ok(first)
    requires forall i :: 0 <= i < |rs[1..]| ==> rs[1..][i] == Ok(rest[i])
    ensures forall i :: 0 <= i < |rs| ==> rs[i] == Ok(([first] + rest)[i])
  {
    forall i | 1 <= i < |rs|
      ensures rs[i] == Ok(([first] + rest)[i])
    {
      assert rs[i] == rs[1..][i - 1];
    }
  }

  /** A loaded manifest's workflow names are non-empty and pairwise distinct. */
  lemma LoadedNamesDistinct(source: Source)
    ensures LoadManifest(source).Ok? ==> DistinctNames(LoadManifest(source).value.workflows)
  {
    if LoadManifest(source).Ok? {
      var list := GetOr(source.data.members, Str("workflows"), Null);
      EntriesOk(list.items, 0, {});
    }
  }

  // ---------------------------------------------------------------------
  // Writing a manifest back as a value tree
  // ---------------------------------------------------------------------

  function EncodeStrings(xs: seq<string>): (r: seq<Value>)
    ensures |r| == |xs| && forall i :: 0 <= i < |xs| ==> r[i] == Str(xs[i])
  {
    seq(|xs|, i requires 0 <= i < |xs| => Str(xs[i]))
  }

  /** A workflow entry with every field written out. */
  function EncodeSpec(spec: WorkflowSpec): Value {
    Map([
      (Str("name"), Str(spec.name)),
      (Str("active"), Bool(spec.active)),
      (Str("tags"), List(EncodeStrings(spec.tags))),
      (Str("requires_credentials"), List(EncodeStrings(spec.requiresCredentials))),
      (Str("requires_env"), List(EncodeStrings(spec.requiresEnv)))])
  }

  function EncodeTags(tags: seq<(string, string)>): (r: Fields)
    ensures |r| == |tags| && forall i :: 0 <= i < |tags| ==> r[i] == (Str(tags[i].0), Str(tags[i].1))
  {
    seq(|tags|, i requires 0 <= i < |tags| => (Str(tags[i].0), Str(tags[i].1)))
  }

  function EncodeSpecs(specs: seq<WorkflowSpec>): (r: seq<Value>)
    ensures |r| == |specs| && forall i :: 0 <= i < |specs| ==> r[i] == EncodeSpec(specs[i])
  {
    seq(|specs|, i requires 0 <= i < |specs| => EncodeSpec(specs[i]))
  }

  /** The manifest as a YAML document with every key written out. */
  function Encode(m: Manifest): Value {
    Map([
      (Str("externalize_code"), Bool(m.externalizeCode)),
      (Str("tags"), Map(EncodeTags(m.tags))),
      (Str("workflows"), List(EncodeSpecs(m.workflows)))])
  }

  lemma StringsEncoded(xs: seq<string>, index: nat, field: string)
    ensures StringList(List(EncodeStrings(xs)), index, field) == Ok(xs)
  {
    assert Strings(EncodeStrings(xs)) == xs;
  }

  lemma EncodedLookups(spec: WorkflowSpec)
    ensures var m := EncodeSpec(spec).members;
      && HasKey(m, Str("name"))
      && GetOr(m, Str("name"), Null) == Str(spec.name)
      && GetOr(m, Str("active"), Bool(false)) == Bool(spec.active)
      && GetOr(m, Str("tags"), List([])) == List(EncodeStrings(spec.tags))
      && GetOr(m, Str("requires_credentials"), List([])) == List(EncodeStrings(spec.requiresCredentials))
      && GetOr(m, Str("requires_env"), List([])) == List(EncodeStrings(spec.requiresEnv))
  {
    EncodedScalars(spec);
    EncodedLists(spec);
  }

  lemma EncodedScalars(spec: WorkflowSpec)
    ensures var m := EncodeSpec(spec).members;
      && HasKey(m, Str("name"))
      && GetOr(m, Str("name"), Null) == Str(spec.name)
      && GetOr(m, Str("active"), Bool(false)) == Bool(spec.active)
  {
    var m := EncodeSpec(spec).members;
    LookupAt(m, Str("name"), 0);
    LookupAt(m, Str("active"), 1);
  }

  lemma EncodedLists(spec: WorkflowSpec)
    ensures var m := EncodeSpec(spec).members;
      && GetOr(m, Str("tags"), List([])) == List(EncodeStrings(spec.tags))
      && GetOr(m, Str("requires_credentials"), List([])) == List(EncodeStrings(spec.requiresCredentials))
      && GetOr(m, Str("requires_env"), List([])) == List(EncodeStrings(spec.requiresEnv))
  {
    var m := EncodeSpec(spec).members;
    LookupAt(m, Str("tags"), 2);
    LookupAt(m, Str("requires_credentials"), 3);
    LookupAt(m, Str("requires_env"), 4);
  }

  /** Looking up the key of member `i`, absent from the members before it, finds member `i`. */
  lemma LookupAt(m: Fields, k: Value, i: nat)
    requires i < |m| && m[i].0 == k
    requires forall j :: 0 <= j < i ==> m[j].0 != k
    ensures HasKey(m, k) && forall d :: GetOr(m, k, d) == m[i].1
  {
    IndexOfIs(m, k, i);
  }

  /** A written-out entry reads back as the same spec, unless its name is empty or taken. */
  lemma EntryEncoded(index: nat, spec: WorkflowSpec, seen: set<string>)
    requires spec.name != [] && spec.name !in seen
    ensures Entry(index, EncodeSpec(spec), seen) == Ok(spec)
  {
    EncodedLookups(spec);
    StringsEncoded(spec.tags, index, "tags");
    StringsEncoded(spec.requiresCredentials, index, "requires_credentials");
    StringsEncoded(spec.requiresEnv, index, "requires_env");
  }

  lemma {:induction false} EntriesEncoded(specs: seq<WorkflowSpec>, start: nat, seen: set<string>)
    requires DistinctNames(specs)
    requires forall i :: 0 <= i < |specs| ==> specs[i].name !in seen
    ensures Entries(EncodeSpecs(specs), start, seen) == Ok(specs)
    decreases |specs|
  {
    if specs != [] {
      FreshTail(specs, seen);
      EntriesEncoded(specs[1..], start + 1, seen + {specs[0].name});
      EncodedStep(specs, start, seen);
    }
  }

  lemma EncodedStep(specs: seq<WorkflowSpec>, start: nat, seen: set<string>)
    requires specs != [] && specs[0].name != [] && specs[0].name !in seen
    requires Entries(EncodeSpecs(specs[1..]), start + 1, seen + {specs[0].name}) == Ok(specs[1..])
    ensures Entries(EncodeSpecs(specs), start, seen) == Ok(specs)
  {
    EncodeSpecsSplit(specs);
    EntryEncoded(start, specs[0], seen);
    EntriesStep(EncodeSpecs(specs), start, seen, specs);
  }

  lemma EncodeSpecsSplit(specs: seq<WorkflowSpec>)
    requires specs != []
    ensures EncodeSpecs(specs)[0] == EncodeSpec(specs[0])
    ensures EncodeSpecs(specs)[1..] == EncodeSpecs(specs[1..])
  {
  }

  /** One step of the entry loop: an accepted head followed by an accepted tail. */
  lemma EntriesStep(entries: seq<Value>, start: nat, seen: set<string>, specs: seq<WorkflowSpec>)
    requires entries != [] && specs != [] && Entry(start, entries[0], seen) == Ok(specs[0])
    requires Entries(entries[1..], start + 1, seen + {specs[0].name}) == Ok(specs[1..])
    ensures Entries(entries, start, seen) == Ok(specs)
  {
    assert [specs[0]] + specs[1..] == specs;
  }

  /** Distinct names that are all new stay so for the tail once the head's name is seen. */
  lemma FreshTail(specs: seq<WorkflowSpec>, seen: set<string>)
    requires specs != [] && DistinctNames(specs)
    requires forall i :: 0 <= i < |specs| ==> specs[i].name !in seen
    ensures DistinctNames(specs[1..])
    ensures forall i :: 0 <= i < |specs[1..]| ==> specs[1..][i].name !in seen + {specs[0].name}
  {
    var rest := specs[1..];
    forall i | 0 <= i < |rest|
      ensures rest[i].name != [] && rest[i].name !in seen + {specs[0].name}
    {
      assert rest[i] == specs[i + 1];
    }
    forall i, j | 0 <= i < j < |rest|
      ensures rest[i].name != rest[j].name
    {
      assert rest[i] == specs[i + 1] && rest[j] == specs[j + 1];
    }
  }

  /**
   * Round trip: a manifest whose workflow names are non-empty and distinct
   * loads back unchanged from its written-out form.
   */
  lemma LoadEncoded(m: Manifest)
    requires DistinctNames(m.workflows)
    ensures LoadManifest(Parsed(Encode(m))) == Ok(m)
  {
    var root := Encode(m).members;
    IndexOfIs(root, Str("externalize_code"), 0);
    IndexOfIs(root, Str("tags"), 1);
    IndexOfIs(root, Str("workflows"), 2);
    var t := Tags(Map(EncodeTags(m.tags)));
    assert t.Ok?;
    assert t.value == m.tags;
    EntriesEncoded(m.workflows, 0, {});
  }

  // ---------------------------------------------------------------------
  // Defaults and the order of checks
  // ---------------------------------------------------------------------

  /** An entry with only a name gets the defaults: inactive, no tags, no requirements. */
  lemma EntryDefaults(index: nat, name: string, seen: set<string>)
    requires name != [] && name !in seen
    ensures Entry(index, Map([(Str("name"), Str(name))]), seen) == Ok(WorkflowSpec(name, false, [], [], []))
  {
    var m := [(Str("name"), Str(name))];
    IndexOfIs(m, Str("name"), 0);
    assert IndexOf(m, Str("active")).None?;
    assert IndexOf(m, Str("tags")).None?;
    assert IndexOf(m, Str("requires_credentials")).None?;
    assert IndexOf(m, Str("requires_env")).None?;
    assert Strings([]) == [];
  }

  /**
   * An accepted entry's other fields are the mapping's own: `active`
   * (default false) is the spec's flag, and `tags`, `requires_credentials`
   * and `requires_env` (default empty) are lists of strings equal to the
   * spec's lists.
   */
  lemma EntryFields(index: nat, v: Value, seen: set<string>)
    ensures var r := Entry(index, v, seen);
      r.Ok? ==>
        && v.Map?
        && GetOr(v.members, Str("active"), Bool(false)) == Bool(r.value.active)
        && StringList(GetOr(v.members, Str("tags"), List([])), index, "tags") == Ok(r.value.tags)
        && StringList(GetOr(v.members, Str("requires_credentials"), List([])), index, "requires_credentials")
             == Ok(r.value.requiresCredentials)
        && StringList(GetOr(v.members, Str("requires_env"), List([])), index, "requires_env") == Ok(r.value.requiresEnv)
  {
    var r := Entry(index, v, seen);
    if r.Ok? {
      var tags := StringList(GetOr(v.members, Str("tags"), List([])), index, "tags");
      var creds := StringList(GetOr(v.members, Str("requires_credentials"), List([])), index, "requires_credentials");
      var env := StringList(GetOr(v.members, Str("requires_env"), List([])), index, "requires_env");
      assert tags.Ok? && creds.Ok? && env.Ok?;
      assert r.value.tags == tags.value;
      assert r.value.requiresCredentials == creds.value;
      assert r.value.requiresEnv == env.value;
    }
  }

  /** An entry's name is checked first: a mapping, then a `name` key, then a non-empty string, then not a duplicate. */
  lemma EntryNameErrors(index: nat, v: Value, seen: set<string>)
    ensures var r := Entry(index, v, seen);
      && (!v.Map? ==> r == Err(EntryNotMap(index)))
      && (v.Map? && !HasKey(v.members, Str("name")) ==> r == Err(EntryMissingName(index)))
      && (v.Map? && HasKey(v.members, Str("name")) ==>
            var name := GetOr(v.members, Str("name"), Null);
            && (!name.Str? || name.s == [] ==> r == Err(NameInvalid(index)))
            && (name.Str? && name.s != [] && name.s in seen ==> r == Err(DuplicateName(name.s))))
  {
  }

  /**
   * Once the name is accepted, the other fields are checked in order:
   * `active`, then `tags`, `requires_credentials` and `requires_env`; the
   * first failure is the error, and the entry is accepted when none fails.
   */
  lemma EntryFieldErrors(index: nat, v: Value, seen: set<string>)
    requires v.Map? && HasKey(v.members, Str("name"))
    requires var name := GetOr(v.members, Str("name"), Null); name.Str? && name.s != [] && name.s !in seen
    ensures var r := Entry(index, v, seen);
      var active := GetOr(v.members, Str("active"), Bool(false));
      var tags := StringList(GetOr(v.members, Str("tags"), List([])), index, "tags");
      var creds := StringList(GetOr(v.members, Str("requires_credentials"), List([])), index, "requires_credentials");
      var env := StringList(GetOr(v.members, Str("requires_env"), List([])), index, "requires_env");
      && (!active.Bool? ==> r == Err(ActiveNotBool(index)))
      && (active.Bool? && tags.Err? ==> r == Err(tags.error))
      && (active.Bool? && tags.Ok? && creds.Err? ==> r == Err(creds.error))
      && (active.Bool? && tags.Ok? && creds.Ok? && env.Err? ==> r == Err(env.error))
      && (active.Bool? && tags.Ok? && creds.Ok? && env.Ok? ==> r.Ok?)
  {
  }

  /** A manifest with only a workflows list externalises code and has no tags. */
  /**
   * What any root mapping loads to: the manifest is accepted with value `m`
   * exactly when `externalize_code` (default true) is `m`'s flag, `tags`
   * (default empty) reads as `m`'s tags, `workflows` is a list, and its
   * entries load to `m`'s workflows. Other keys and the key order play no part.
   */
  lemma LoadSuccess(root: Fields, m: Manifest)
    ensures LoadManifest(Parsed(Map(root))) == Ok(m) <==>
      && GetOr(root, Str("externalize_code"), Bool(true)) == Bool(m.externalizeCode)
      && Tags(GetOr(root, Str("tags"), Map([]))) == Ok(m.tags)
      && GetOr(root, Str("workflows"), Null).List?
      && Entries(GetOr(root, Str("workflows"), Null).items, 0, {}) == Ok(m.workflows)
  {
  }

  /** Without `externalize_code` and `tags` a loaded manifest externalises code and has no tags. */
  lemma ManifestDefaults(root: Fields)
    ensures !HasKey(root, Str("externalize_code")) && !HasKey(root, Str("tags")) ==>
      var r := LoadManifest(Parsed(Map(root)));
      r.Ok? ==> r.value.externalizeCode && r.value.tags == []
    ensures LoadManifest(Parsed(Map([(Str("workflows"), List([]))]))) == Ok(Manifest([], true, []))
  {
    var empty := [(Str("workflows"), List([]))];
    assert IndexOf(empty, Str("externalize_code")).None?;
    assert IndexOf(empty, Str("tags")).None?;
    IndexOfIs(empty, Str("workflows"), 0);
  }

  /** `externalize_code: false` is honoured wherever it stands among the root's keys. */
  lemma ExternalizeOff(entries: seq<Value>)
    ensures var root := [(Str("workflows"), List(entries)), (Str("externalize_code"), Bool(false))];
      var r := LoadManifest(Parsed(Map(root)));
      r.Ok? ==> !r.value.externalizeCode && r.value.tags == []
    ensures LoadManifest(Parsed(Map([(Str("workflows"), List([])), (Str("externalize_code"), Bool(false))])))
      == Ok(Manifest([], false, []))
  {
    var root := [(Str("workflows"), List(entries)), (Str("externalize_code"), Bool(false))];
    IndexOfIs(root, Str("externalize_code"), 1);
    assert IndexOf(root, Str("tags")).None?;
    var empty := [(Str("workflows"), List([])), (Str("externalize_code"), Bool(false))];
    IndexOfIs(empty, Str("externalize_code"), 1);
    assert IndexOf(empty, Str("tags")).None?;
    IndexOfIs(empty, Str("workflows"), 0);
  }

  lemma NamesCons(spec: WorkflowSpec, specs: seq<WorkflowSpec>)
    ensures Names([spec] + specs) == {spec.name} + Names(specs)
  {
    var xs := [spec] + specs;
    assert xs[0] == spec;
    forall n | n in Names(xs)
      ensures n in {spec.name} + Names(specs)
    {
      var i :| 0 <= i < |xs| && xs[i].name == n;
      if i > 0 {
        assert xs[i] == specs[i - 1];
      }
    }
    forall n | n in Names(specs)
      ensures n in Names(xs)
    {
      var i :| 0 <= i < |specs| && specs[i].name == n;
      assert xs[i + 1] == specs[i];
    }
  }

  /** Entries before `k` are accepted, and entry `k` itself fails with `e`. */
  ghost predicate FailsAt(entries: seq<Value>, start: nat, seen: set<string>, k: int, e: ManifestError) {
    && 0 <= k < |entries|
    && Entries(entries[..k], start, seen).Ok?
    && Entry(start + k, entries[k], seen + Names(Entries(entries[..k], start, seen).value)) == Err(e)
  }

  lemma FailsLater(entries: seq<Value>, start: nat, seen: set<string>, k: int, e: ManifestError)
    requires entries != [] && Entry(start, entries[0], seen).Ok?
    requires FailsAt(entries[1..], start + 1, seen + {Entry(start, entries[0], seen).value.name}, k, e)
    ensures FailsAt(entries, start, seen, k + 1, e)
  {
    var first := Entry(start, entries[0], seen).value;
    var seen' := seen + {first.name};
    var prefix := entries[..k + 1];
    assert prefix[1..] == entries[1..][..k];
    var before := Entries(entries[1..][..k], start + 1, seen').value;
    assert Entries(prefix, start, seen) == Ok([first] + before);
    NamesCons(first, before);
    var names := seen + Names(Entries(prefix, start, seen).value);
    assert names == seen' + Names(before);
    assert entries[k + 1] == entries[1..][k];
    assert start + (k + 1) == (start + 1) + k;
    assert Entry(start + (k + 1), entries[k + 1], names) == Err(e);
  }

  /**
   * The loop reports the first failing entry: every entry before it is
   * accepted, and the error is that entry's own, given the names before it.
   */
  lemma {:induction false} EntriesFirstError(entries: seq<Value>, start: nat, seen: set<string>)
    requires Entries(entries, start, seen).Err?
    ensures exists k :: FailsAt(entries, start, seen, k, Entries(entries, start, seen).error)
    decreases |entries|
  {
    var e := Entries(entries, start, seen).error;
    var first := Entry(start, entries[0], seen);
    if first.Ok? {
      var seen' := seen + {first.value.name};
      EntriesFirstError(entries[1..], start + 1, seen');
      var k :| FailsAt(entries[1..], start + 1, seen', k, e);
      FailsLater(entries, start, seen, k, e);
    } else {
      assert entries[..0] == [];
      assert Names([]) == {};
      assert FailsAt(entries, start, seen, 0, e);
    }
  }

  /** `externalize_code` is checked first, then `tags`. */
  lemma LoadHeaderErrors(data: Value)
    requires data.Map?
    ensures var r := LoadManifest(Parsed(data));
      var externalize := GetOr(data.members, Str("externalize_code"), Bool(true));
      var tags := Tags(GetOr(data.members, Str("tags"), Map([])));
      && (r == Err(ExternalizeCodeNotBool) <==> !externalize.Bool?)
      && (r.Err? && (r.error.TagsNotMap? || r.error.TagNotString?) <==> externalize.Bool? && tags.Err?)
  {
  }

  /** The `workflows` key is checked after the header: first present, then a list. */
  lemma LoadWorkflowsErrors(data: Value)
    requires data.Map?
    ensures var r := LoadManifest(Parsed(data));
      var root := data.members;
      var header := GetOr(root, Str("externalize_code"), Bool(true)).Bool? && Tags(GetOr(root, Str("tags"), Map([]))).Ok?;
      && (r == Err(MissingWorkflows) <==> header && !HasKey(root, Str("workflows")))
      && (r == Err(WorkflowsNotList) <==>
            header && HasKey(root, Str("workflows")) && !GetOr(root, Str("workflows"), Null).List?)
  {
  }

  /** An error about an entry is reported only after every top-level check has passed. */
  lemma LoadEntryError(data: Value)
    requires data.Map?
    requires LoadManifest(Parsed(data)).Err? && IsEntryError(LoadManifest(Parsed(data)).error)
    ensures var root := data.members;
      var list := GetOr(root, Str("workflows"), Null);
      && GetOr(root, Str("externalize_code"), Bool(true)).Bool?
      && Tags(GetOr(root, Str("tags"), Map([]))).Ok?
      && list.List?
      && Entries(list.items, 0, {}) == Err(LoadManifest(Parsed(data)).error)
  {
  }
}
