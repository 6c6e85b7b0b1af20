/**
 * Credential documentation produced by the export: the references each
 * workflow's nodes declare, their aggregation into a type -> name ->
 * workflow-names index, and the sorted report written out at the end.
 */
module Credentials {
  import opened Wrappers
  import opened JsonValue
  import opened Ordering

  /** One `{"type": ..., "name": ...}` record emitted by the extractor. */
  datatype CredentialRef = CredentialRef(credType: Value, name: Value)

  datatype CredentialError =
    /** `workflow["nodes"]` is not iterable (the loop raises `TypeError`). */
    | NodesNotIterable(nodes: Value)
    /** A credential type or name the model cannot order as a string. */
    | NonStringCredential(ref: CredentialRef)

  /** The index built while exporting: type -> name -> workflow names, in insertion order. */
  datatype NameEntry = NameEntry(name: string, workflows: seq<string>)
  datatype TypeEntry = TypeEntry(credType: string, names: seq<NameEntry>)
  type CredentialIndex = seq<TypeEntry>

  function TypeKey(e: TypeEntry): string { e.credType }
  function NameKey(e: NameEntry): string { e.name }
  function Id(w: string): string { w }

  // ---------------------------------------------------------------------
  // Extraction
  // ---------------------------------------------------------------------

  /** `node` is a dict whose `credentials` dict has an entry of type `c.credType` holding `"name": c.name`. */
  ghost predicate NodeDeclares(node: Value, c: CredentialRef) {
    && node.Map?
    && var creds := GetOr(node.members, Str("credentials"), Map([]));
    && creds.Map?
    && exists entry :: entry in creds.members && EntryDeclares(entry, c)
  }

  ghost predicate EntryDeclares(entry: (Value, Value), c: CredentialRef) {
    entry.0 == c.credType && entry.1.Map? && Get(entry.1.members, Str("name")) == Some(c.name)
  }

  function EntryCredentials(entries: Fields): (r: seq<CredentialRef>)
    ensures forall c :: c in r <==> exists entry :: entry in entries && EntryDeclares(entry, c)
  {
    if entries == [] then []
    else
      var data := entries[0].1;
      var here := if data.Map? && HasKey(data.members, Str("name"))
        then [CredentialRef(entries[0].0, Get(data.members, Str("name")).value)]
        else [];
      assert forall c :: c in here <==> EntryDeclares(entries[0], c);
      assert entries == [entries[0]] + entries[1..];
      here + EntryCredentials(entries[1..])
  }

  /** The credentials one node contributes. */
  function NodeCredentials(node: Value): (r: seq<CredentialRef>)
    ensures forall c :: c in r <==> NodeDeclares(node, c)
  {
    if !node.Map? then []
    else
      var creds := GetOr(node.members, Str("credentials"), Map([]));
      if !creds.Map? then [] else EntryCredentials(creds.members)
  }

  function NodesCredentials(nodes: seq<Value>): (r: seq<CredentialRef>)
    ensures forall c :: c in r <==> exists node :: node in nodes && NodeDeclares(node, c)
  {
    if nodes == [] then []
    else
      assert nodes == [nodes[0]] + nodes[1..];
      NodeCredentials(nodes[0]) + NodesCredentials(nodes[1..])
  }

  /**
   * `_extract_credentials`: a reference is emitted exactly for the dict
   * nodes whose `credentials` value is a dict with an entry that is itself
   * a dict holding `"name"`. A `nodes` value that is not iterable raises.
   */
  function ExtractCredentials(workflow: Fields): (r: Result<seq<CredentialRef>, CredentialError>)
    ensures var nodes := GetOr(workflow, Str("nodes"), List([]));
      r.Err? <==> (nodes.Null? || nodes.Bool? || nodes.Int?)
    ensures var nodes := GetOr(workflow, Str("nodes"), List([]));
      r.Ok? ==> forall c :: c in r.value <==>
        exists node :: node in Iterate(nodes).value && NodeDeclares(node, c)
  {
    var nodes := GetOr(workflow, Str("nodes"), List([]));
    match Iterate(nodes)
    case None => Err(NodesNotIterable(nodes))
    case Some(items) => Ok(NodesCredentials(items))
  }

  // ---------------------------------------------------------------------
  // Aggregation (the loop over each workflow's credentials in run_export)
  // ---------------------------------------------------------------------

  /** The index lists workflow `w` under credential type `t` and name `n`. */
  ghost predicate Lists(m: CredentialIndex, t: string, n: string, w: string) {
    exists e, ne :: e in m && ne in e.names && e.credType == t && ne.name == n && w in ne.workflows
  }

  ghost predicate NamesList(ns: seq<NameEntry>, n: string, w: string) {
    exists ne :: ne in ns && ne.name == n && w in ne.workflows
  }

  /** Types are unique, names are unique per type, and no name lists a workflow twice. */
  ghost predicate WellFormed(m: CredentialIndex) {
    && DistinctKeys(m, TypeKey)
    && forall e :: e in m ==> NamesWellFormed(e.names)
  }

  ghost predicate NamesWellFormed(ns: seq<NameEntry>) {
    && DistinctKeys(ns, NameKey)
    && forall ne :: ne in ns ==> DistinctKeys(ne.workflows, Id)
  }

  /** Records workflow `w` under name `n` unless it is already listed. */
  function AddName(ns: seq<NameEntry>, n: string, w: string): seq<NameEntry> {
    if ns == [] then [NameEntry(n, [w])]
    else if ns[0].name == n then
      var ws := ns[0].workflows;
      [NameEntry(n, if w in ws then ws else ws + [w])] + ns[1..]
    else [ns[0]] + AddName(ns[1..], n, w)
  }

  /** Records workflow `w` under credential type `t` and name `n`. */
  function AddRef(m: CredentialIndex, t: string, n: string, w: string): CredentialIndex {
    if m == [] then [TypeEntry(t, [NameEntry(n, [w])])]
    else if m[0].credType == t then [TypeEntry(t, AddName(m[0].names, n, w))] + m[1..]
    else [m[0]] + AddRef(m[1..], t, n, w)
  }

  /** Adding a name entry lists exactly one more (name, workflow) pair. */
  lemma {:induction false} AddNameLists(ns: seq<NameEntry>, n: string, w: string, n': string, w': string)
    ensures NamesList(AddName(ns, n, w), n', w') <==> NamesList(ns, n', w') || (n' == n && w' == w)
    decreases |ns|
  {
    var r := AddName(ns, n, w);
    if ns == [] {
      assert NameEntry(n, [w]) in r;
    } else if ns[0].name == n {
      var ws := ns[0].workflows;
      var first := NameEntry(n, if w in ws then ws else ws + [w]);
      assert r == [first] + ns[1..];
      assert first in r;
      if NamesList(ns, n', w') {
        var ne :| ne in ns && ne.name == n' && w' in ne.workflows;
        if ne != ns[0] {
          assert ne in ns[1..];
        }
      }
      if NamesList(r, n', w') {
        var ne :| ne in r && ne.name == n' && w' in ne.workflows;
        if ne != first {
          assert ne in ns[1..];
        } else if w' != w {
          assert ns[0] in ns;
        }
      }
    } else {
      AddNameLists(ns[1..], n, w, n', w');
      assert r == [ns[0]] + AddName(ns[1..], n, w);
      if NamesList(ns, n', w') {
        var ne :| ne in ns && ne.name == n' && w' in ne.workflows;
        if ne == ns[0] {
          assert ne in r;
        } else {
          assert ne in ns[1..];
        }
      }
      if NamesList(r, n', w') {
        var ne :| ne in r && ne.name == n' && w' in ne.workflows;
        if ne == ns[0] {
          assert ne in ns;
        } else {
          assert ne in AddName(ns[1..], n, w);
        }
      }
    }
  }

  /** Every entry after adding either has the added name or was already there. */
  lemma {:induction false} AddNameEntries(ns: seq<NameEntry>, n: string, w: string)
    ensures forall ne :: ne in AddName(ns, n, w) ==> ne.name == n || ne in ns
    decreases |ns|
  {
    if ns != [] && ns[0].name != n {
      AddNameEntries(ns[1..], n, w);
    }
  }

  /** Replacing the first entry by one with the same name and distinct workflows keeps the shape. */
  lemma ReplaceHead(ns: seq<NameEntry>, e: NameEntry)
    requires ns != [] && NamesWellFormed(ns)
    requires e.name == ns[0].name && DistinctKeys(e.workflows, Id)
    ensures NamesWellFormed([e] + ns[1..])
  {
    var r := [e] + ns[1..];
    forall i, j | 0 <= i < j < |r|
      ensures NameKey(r[i]) != NameKey(r[j])
    {
      assert r[j] == ns[j];
      if i > 0 {
        assert r[i] == ns[i];
      }
    }
    forall ne | ne in r
      ensures DistinctKeys(ne.workflows, Id)
    {
      if ne != e {
        var k :| 0 <= k < |r| && r[k] == ne;
        assert ne == ns[k];
      }
    }
  }

  /** Adding never creates a second entry for a name nor lists a workflow twice. */
  lemma {:induction false} AddNameWellFormed(ns: seq<NameEntry>, n: string, w: string)
    requires NamesWellFormed(ns)
    ensures NamesWellFormed(AddName(ns, n, w))
    decreases |ns|
  {
    var r := AddName(ns, n, w);
    if ns == [] {
    } else if ns[0].name == n {
      var ws := ns[0].workflows;
      assert ns[0] in ns;
      assert DistinctKeys(if w in ws then ws else ws + [w], Id);
      ReplaceHead(ns, NameEntry(n, if w in ws then ws else ws + [w]));
    } else {
      var rest := AddName(ns[1..], n, w);
      assert NamesWellFormed(ns[1..]);
      AddNameWellFormed(ns[1..], n, w);
      AddNameEntries(ns[1..], n, w);
      forall j | 0 < j < |r|
        ensures NameKey(r[0]) != NameKey(r[j])
      {
        assert r[j] in rest;
        if r[j].name != n {
          assert r[j] in ns[1..];
          var k :| 0 <= k < |ns[1..]| && ns[1..][k] == r[j];
          assert ns[k + 1] == r[j];
        }
      }
      assert ns[0] in ns;
    }
  }

  /** Recording a reference lists exactly one more (type, name, workflow) triple. */
  lemma {:induction false} AddRefLists(m: CredentialIndex, t: string, n: string, w: string, t': string, n': string, w': string)
    ensures Lists(AddRef(m, t, n, w), t', n', w') <==> Lists(m, t', n', w') || (t' == t && n' == n && w' == w)
    decreases |m|
  {
    var r := AddRef(m, t, n, w);
    if m == [] {
      assert TypeEntry(t, [NameEntry(n, [w])]) in r && NameEntry(n, [w]) in [NameEntry(n, [w])];
    } else if m[0].credType == t {
      AddRefListsHere(m, t, n, w, t', n', w');
    } else {
      AddRefLists(m[1..], t, n, w, t', n', w');
      AddRefListsLater(m, t, n, w, t', n', w');
    }
  }

  /** The reference lands in the first type entry, which has its type. */
  lemma AddRefListsHere(m: CredentialIndex, t: string, n: string, w: string, t': string, n': string, w': string)
    requires m != [] && m[0].credType == t
    ensures Lists(AddRef(m, t, n, w), t', n', w') <==> Lists(m, t', n', w') || (t' == t && n' == n && w' == w)
  {
    var r := AddRef(m, t, n, w);
    var names' := AddName(m[0].names, n, w);
    var first := TypeEntry(t, names');
    assert r == [first] + m[1..];
    assert first in r;
    AddNameLists(m[0].names, n, w, n', w');
    if Lists(m, t', n', w') {
      var e, ne :| e in m && ne in e.names && e.credType == t' && ne.name == n' && w' in ne.workflows;
      if e == m[0] {
        assert NamesList(m[0].names, n', w');
        var ne' :| ne' in names' && ne'.name == n' && w' in ne'.workflows;
      } else {
        assert e in m[1..];
      }
    }
    if t' == t && n' == n && w' == w {
      AddNameLists(m[0].names, n, w, n, w);
      var ne' :| ne' in names' && ne'.name == n && w in ne'.workflows;
    }
    if Lists(r, t', n', w') {
      var e, ne :| e in r && ne in e.names && e.credType == t' && ne.name == n' && w' in ne.workflows;
      if e == first {
        assert NamesList(names', n', w');
        assert m[0] in m;
      } else {
        assert e in m[1..];
      }
    }
  }

  /** The reference lands after a first type entry of another type, which stays as it is. */
  lemma AddRefListsLater(m: CredentialIndex, t: string, n: string, w: string, t': string, n': string, w': string)
    requires m != [] && m[0].credType != t
    requires Lists(AddRef(m[1..], t, n, w), t', n', w') <==> Lists(m[1..], t', n', w') || (t' == t && n' == n && w' == w)
    ensures Lists(AddRef(m, t, n, w), t', n', w') <==> Lists(m, t', n', w') || (t' == t && n' == n && w' == w)
  {
    var r := AddRef(m, t, n, w);
    var rest := AddRef(m[1..], t, n, w);
    assert r == [m[0]] + rest;
    if Lists(m, t', n', w') {
      var e, ne :| e in m && ne in e.names && e.credType == t' && ne.name == n' && w' in ne.workflows;
      if e == m[0] {
        assert e in r;
      } else {
        assert e in m[1..];
      }
    }
    if Lists(r, t', n', w') {
      var e, ne :| e in r && ne in e.names && e.credType == t' && ne.name == n' && w' in ne.workflows;
      if e == m[0] {
        assert e in m;
      } else {
        assert e in rest;
      }
    }
  }

  lemma {:induction false} AddRefEntries(m: CredentialIndex, t: string, n: string, w: string)
    ensures forall e :: e in AddRef(m, t, n, w) ==> e.credType == t || e in m
    decreases |m|
  {
    if m != [] && m[0].credType != t {
      AddRefEntries(m[1..], t, n, w);
    }
  }

  /** Replacing the first type entry by a well-formed one of the same type keeps the shape. */
  lemma ReplaceTypeHead(m: CredentialIndex, e: TypeEntry)
    requires m != [] && WellFormed(m)
    requires e.credType == m[0].credType && NamesWellFormed(e.names)
    ensures WellFormed([e] + m[1..])
  {
    var r := [e] + m[1..];
    forall i, j | 0 <= i < j < |r|
      ensures TypeKey(r[i]) != TypeKey(r[j])
    {
      assert r[j] == m[j];
      if i > 0 {
        assert r[i] == m[i];
      }
    }
    forall x | x in r
      ensures NamesWellFormed(x.names)
    {
      if x != e {
        var k :| 0 <= k < |r| && r[k] == x;
        assert x == m[k];
      }
    }
  }

  lemma {:induction false} AddRefWellFormed(m: CredentialIndex, t: string, n: string, w: string)
    requires WellFormed(m)
    ensures WellFormed(AddRef(m, t, n, w))
    decreases |m|
  {
    var r := AddRef(m, t, n, w);
    if m == [] {
    } else if m[0].credType == t {
      assert m[0] in m;
      AddNameWellFormed(m[0].names, n, w);
      ReplaceTypeHead(m, TypeEntry(t, AddName(m[0].names, n, w)));
    } else {
      var rest := AddRef(m[1..], t, n, w);
      assert WellFormed(m[1..]);
      AddRefWellFormed(m[1..], t, n, w);
      AddRefEntries(m[1..], t, n, w);
      forall j | 0 < j < |r|
        ensures TypeKey(r[0]) != TypeKey(r[j])
      {
        assert r[j] in rest;
        if r[j].credType != t {
          assert r[j] in m[1..];
          var k :| 0 <= k < |m[1..]| && m[1..][k] == r[j];
          assert m[k + 1] == r[j];
        }
      }
      assert m[0] in m;
    }
  }

  // ---------------------------------------------------------------------
  // Folding every exported workflow into the index
  // ---------------------------------------------------------------------

  /** A workflow fetched during export: its summary name and its full document. */
  datatype Fetched = Fetched(name: string, workflow: Fields)

  /** The extractor reports a reference of string type `t` and string name `n` for `f`. */
  ghost predicate Declares(f: Fetched, t: string, n: string) {
    var refs := ExtractCredentials(f.workflow);
    refs.Ok? && CredentialRef(Str(t), Str(n)) in refs.value
  }

  ghost predicate StringRef(c: CredentialRef) {
    c.credType.Str? && c.name.Str?
  }

  /** Records every reference of one workflow. */
  function AddRefs(m: CredentialIndex, refs: seq<CredentialRef>, w: string): Result<CredentialIndex, CredentialError>
    decreases |refs|
  {
    if refs == [] then Ok(m)
    else if refs[0].credType.Str? && refs[0].name.Str? then
      AddRefs(AddRef(m, refs[0].credType.s, refs[0].name.s, w), refs[1..], w)
    else Err(NonStringCredential(refs[0]))
  }

  function CollectFrom(m: CredentialIndex, runs: seq<Fetched>): Result<CredentialIndex, CredentialError>
    decreases |runs|
  {
    if runs == [] then Ok(m)
    else
      var refs :- ExtractCredentials(runs[0].workflow);
      var m' :- AddRefs(m, refs, runs[0].name);
      CollectFrom(m', runs[1..])
  }

  /** The credential loop of the export, over the workflows in fetch order. */
  function CollectCredentials(runs: seq<Fetched>): Result<CredentialIndex, CredentialError> {
    CollectFrom([], runs)
  }

  lemma {:induction false} AddRefsSpec(m: CredentialIndex, refs: seq<CredentialRef>, w: string)
    ensures AddRefs(m, refs, w).Ok? <==> forall c :: c in refs ==> StringRef(c)
    ensures AddRefs(m, refs, w).Ok? && WellFormed(m) ==> WellFormed(AddRefs(m, refs, w).value)
    ensures AddRefs(m, refs, w).Ok? ==> forall t, n, w' ::
      Lists(AddRefs(m, refs, w).value, t, n, w') <==>
        Lists(m, t, n, w') || (w' == w && CredentialRef(Str(t), Str(n)) in refs)
    decreases |refs|
  {
    if refs != [] {
      assert refs == [refs[0]] + refs[1..];
      if StringRef(refs[0]) {
        var t0, n0 := refs[0].credType.s, refs[0].name.s;
        var m1 := AddRef(m, t0, n0, w);
        AddRefsSpec(m1, refs[1..], w);
        if WellFormed(m) {
          AddRefWellFormed(m, t0, n0, w);
        }
        if AddRefs(m, refs, w).Ok? {
          forall t, n, w'
            ensures Lists(AddRefs(m, refs, w).value, t, n, w') <==>
              Lists(m, t, n, w') || (w' == w && CredentialRef(Str(t), Str(n)) in refs)
          {
            AddRefLists(m, t0, n0, w, t, n, w');
          }
        }
      }
    }
  }

  /** Whether workflow `w` of `runs` declares (t, n). */
  ghost predicate RunsDeclare(runs: seq<Fetched>, t: string, n: string, w: string) {
    exists f :: f in runs && f.name == w && Declares(f, t, n)
  }

  ghost predicate Collectable(f: Fetched) {
    var refs := ExtractCredentials(f.workflow);
    refs.Ok? && forall c :: c in refs.value ==> StringRef(c)
  }

  /** One step of the fold over the fetched workflows. */
  lemma CollectFromStep(m: CredentialIndex, runs: seq<Fetched>)
    requires runs != []
    ensures var refs := ExtractCredentials(runs[0].workflow);
      CollectFrom(m, runs) ==
        if refs.Err? then Err(refs.error)
        else if AddRefs(m, refs.value, runs[0].name).Err? then Err(AddRefs(m, refs.value, runs[0].name).error)
        else CollectFrom(AddRefs(m, refs.value, runs[0].name).value, runs[1..])
  {
  }

  lemma {:induction false} CollectFromOk(m: CredentialIndex, runs: seq<Fetched>)
    ensures CollectFrom(m, runs).Ok? <==> forall f :: f in runs ==> Collectable(f)
    ensures CollectFrom(m, runs).Ok? && WellFormed(m) ==> WellFormed(CollectFrom(m, runs).value)
    decreases |runs|
  {
    if runs != [] {
      assert runs == [runs[0]] + runs[1..];
      assert runs[0] in runs;
      CollectFromStep(m, runs);
      var refs := ExtractCredentials(runs[0].workflow);
      if refs.Ok? {
        AddRefsSpec(m, refs.value, runs[0].name);
        var added := AddRefs(m, refs.value, runs[0].name);
        if added.Ok? {
          CollectFromOk(added.value, runs[1..]);
        }
      }
    }
  }

  lemma {:induction false} CollectFromLists(m: CredentialIndex, runs: seq<Fetched>, t: string, n: string, w: string)
    requires CollectFrom(m, runs).Ok?
    ensures Lists(CollectFrom(m, runs).value, t, n, w) <==> Lists(m, t, n, w) || RunsDeclare(runs, t, n, w)
    decreases |runs|
  {
    if runs != [] {
      var f := runs[0];
      CollectFromStep(m, runs);
      var refs := ExtractCredentials(f.workflow);
      AddRefsSpec(m, refs.value, f.name);
      var added := AddRefs(m, refs.value, f.name).value;
      CollectFromLists(added, runs[1..], t, n, w);
      assert Lists(added, t, n, w) <==> Lists(m, t, n, w) || (w == f.name && Declares(f, t, n));
      RunsDeclareCons(runs, t, n, w);
    }
  }

  lemma RunsDeclareCons(runs: seq<Fetched>, t: string, n: string, w: string)
    requires runs != []
    ensures RunsDeclare(runs, t, n, w) <==>
      (runs[0].name == w && Declares(runs[0], t, n)) || RunsDeclare(runs[1..], t, n, w)
  {
    if RunsDeclare(runs, t, n, w) {
      var g :| g in runs && g.name == w && Declares(g, t, n);
      if g != runs[0] {
        assert g in runs[1..];
      }
    }
    if RunsDeclare(runs[1..], t, n, w) {
      var g :| g in runs[1..] && g.name == w && Declares(g, t, n);
      assert g in runs;
    }
  }

  // ---------------------------------------------------------------------
  // The sorted report
  // ---------------------------------------------------------------------

  /** Each name entry with its workflow list sorted. */
  function MappedNames(ns: seq<NameEntry>): (r: seq<NameEntry>)
    ensures |r| == |ns|
    ensures forall i :: 0 <= i < |ns| ==> r[i] == NameEntry(ns[i].name, SortBy(ns[i].workflows, Id))
  {
    seq(|ns|, i requires 0 <= i < |ns| => NameEntry(ns[i].name, SortBy(ns[i].workflows, Id)))
  }

  function SortNames(ns: seq<NameEntry>): seq<NameEntry> {
    SortBy(MappedNames(ns), NameKey)
  }

  /** Each type entry with its names sorted. */
  function Mapped(m: CredentialIndex): (r: seq<TypeEntry>)
    ensures |r| == |m|
    ensures forall i :: 0 <= i < |m| ==> r[i] == TypeEntry(m[i].credType, SortNames(m[i].names))
  {
    seq(|m|, i requires 0 <= i < |m| => TypeEntry(m[i].credType, SortNames(m[i].names)))
  }

  /** Types sorted, then names sorted within a type, then workflows sorted within a name. */
  function Report(m: CredentialIndex): seq<TypeEntry> {
    SortBy(Mapped(m), TypeKey)
  }

  ghost predicate ReportSorted(rep: seq<TypeEntry>) {
    && StrictlySortedBy(rep, TypeKey)
    && forall e :: e in rep ==>
      && StrictlySortedBy(e.names, NameKey)
      && forall ne :: ne in e.names ==> StrictlySortedBy(ne.workflows, Id)
  }

  /** Sorting keeps exactly the listed triples. */
  lemma ReportLists(m: CredentialIndex, t: string, n: string, w: string)
    ensures Lists(Report(m), t, n, w) <==> Lists(m, t, n, w)
  {
    if Lists(m, t, n, w) {
      var e, ne :| e in m && ne in e.names && e.credType == t && ne.name == n && w in ne.workflows;
      ReportKeeps(m, e, ne, w);
    }
    if Lists(Report(m), t, n, w) {
      ReportAddsNothing(m, t, n, w);
    }
  }

  lemma ReportMembers(m: CredentialIndex)
    ensures forall x :: x in Report(m) <==> x in Mapped(m)
  {
    var rep := Report(m);
    forall x ensures x in rep <==> x in Mapped(m) {
      assert x in rep <==> x in multiset(rep);
      assert x in Mapped(m) <==> x in multiset(Mapped(m));
    }
  }

  lemma ListsWitness(m: CredentialIndex, e: TypeEntry, ne: NameEntry, w: string)
    requires e in m && ne in e.names && w in ne.workflows
    ensures Lists(m, e.credType, ne.name, w)
  {
  }

  lemma SortedKeepsMember(ws: seq<string>, w: string)
    ensures w in SortBy(ws, Id) <==> w in ws
  {
    assert w in SortBy(ws, Id) <==> w in multiset(SortBy(ws, Id));
    assert w in ws <==> w in multiset(ws);
  }

  lemma ReportKeeps(m: CredentialIndex, e: TypeEntry, ne: NameEntry, w: string)
    requires e in m && ne in e.names && w in ne.workflows
    ensures Lists(Report(m), e.credType, ne.name, w)
  {
    var i :| 0 <= i < |m| && m[i] == e;
    var j :| 0 <= j < |e.names| && e.names[j] == ne;
    NamesSorted(e.names, j);
    var ne' := NameEntry(ne.name, SortBy(ne.workflows, Id));
    SortedKeepsMember(ne.workflows, w);
    ReportMembers(m);
    var e' := Mapped(m)[i];
    assert e' in Report(m);
    ListsWitness(Report(m), e', ne', w);
  }

  lemma ReportAddsNothing(m: CredentialIndex, t: string, n: string, w: string)
    requires Lists(Report(m), t, n, w)
    ensures Lists(m, t, n, w)
  {
    var e, ne :| e in Report(m) && ne in e.names && e.credType == t && ne.name == n && w in ne.workflows;
    ReportMembers(m);
    var i := MappedUnsorted(m, e);
    var j := NamesUnsorted(m[i].names, ne);
    SortedKeepsMember(m[i].names[j].workflows, w);
    assert m[i] in m && m[i].names[j] in m[i].names;
    ListsWitness(m, m[i], m[i].names[j], w);
  }

  /** An entry of the mapped index comes from some entry of the index. */
  lemma MappedUnsorted(m: CredentialIndex, e: TypeEntry) returns (i: nat)
    requires e in Mapped(m)
    ensures i < |m| && e == TypeEntry(m[i].credType, SortNames(m[i].names))
  {
    var mapped := Mapped(m);
    var k :| 0 <= k < |mapped| && mapped[k] == e;
    i := k;
  }

  lemma NamesSorted(ns: seq<NameEntry>, j: nat)
    requires j < |ns|
    ensures NameEntry(ns[j].name, SortBy(ns[j].workflows, Id)) in SortNames(ns)
  {
    assert MappedNames(ns)[j] in multiset(MappedNames(ns));
  }

  lemma NamesUnsorted(ns: seq<NameEntry>, ne: NameEntry) returns (j: nat)
    requires ne in SortNames(ns)
    ensures j < |ns| && ne == NameEntry(ns[j].name, SortBy(ns[j].workflows, Id))
  {
    var mapped := MappedNames(ns);
    assert ne in multiset(SortNames(ns));
    assert ne in multiset(mapped);
    assert ne in mapped;
    var k :| 0 <= k < |mapped| && mapped[k] == ne;
    j := k;
  }

  /** A well-formed index yields a report sorted strictly at all three levels. */
  lemma ReportIsSorted(m: CredentialIndex)
    requires WellFormed(m)
    ensures ReportSorted(Report(m))
  {
    var mapped := Mapped(m);
    assert forall i :: 0 <= i < |m| ==> TypeKey(mapped[i]) == TypeKey(m[i]);
    SortByStrict(mapped, TypeKey);
    forall e | e in Report(m)
      ensures StrictlySortedBy(e.names, NameKey)
      ensures forall ne :: ne in e.names ==> StrictlySortedBy(ne.workflows, Id)
    {
      ReportMembers(m);
      var i := MappedUnsorted(m, e);
      assert m[i] in m;
      SortNamesStrict(m[i].names);
    }
  }

  lemma SortNamesStrict(ns: seq<NameEntry>)
    requires NamesWellFormed(ns)
    ensures StrictlySortedBy(SortNames(ns), NameKey)
    ensures forall ne :: ne in SortNames(ns) ==> StrictlySortedBy(ne.workflows, Id)
  {
    var mapped := MappedNames(ns);
    assert forall i :: 0 <= i < |ns| ==> NameKey(mapped[i]) == NameKey(ns[i]);
    SortByStrict(mapped, NameKey);
    forall ne | ne in SortNames(ns)
      ensures StrictlySortedBy(ne.workflows, Id)
    {
      var j := NamesUnsorted(ns, ne);
      assert ns[j] in ns;
      SortByStrict(ns[j].workflows, Id);
    }
  }

  // ---------------------------------------------------------------------
  // No empty levels
  // ---------------------------------------------------------------------

  /**
   * Every type has a name and every name a workflow: levels are created
   * only when a reference is recorded into them.
   */
  ghost predicate NoEmptyLevels(m: seq<TypeEntry>) {
    forall e :: e in m ==> e.names != [] && NamesNonEmpty(e.names)
  }

  ghost predicate NamesNonEmpty(ns: seq<NameEntry>) {
    forall ne :: ne in ns ==> ne.workflows != []
  }

  lemma {:induction false} AddNameNonEmpty(ns: seq<NameEntry>, n: string, w: string)
    requires NamesNonEmpty(ns)
    ensures AddName(ns, n, w) != [] && NamesNonEmpty(AddName(ns, n, w))
  {
    if ns != [] && ns[0].name != n {
      AddNameNonEmpty(ns[1..], n, w);
    }
  }

  lemma {:induction false} AddRefNonEmpty(m: CredentialIndex, t: string, n: string, w: string)
    requires NoEmptyLevels(m)
    ensures NoEmptyLevels(AddRef(m, t, n, w))
  {
    if m != [] {
      if m[0].credType == t {
        AddNameNonEmpty(m[0].names, n, w);
      } else {
        AddRefNonEmpty(m[1..], t, n, w);
      }
    }
  }

  lemma {:induction false} AddRefsNonEmpty(m: CredentialIndex, refs: seq<CredentialRef>, w: string)
    requires NoEmptyLevels(m)
    ensures AddRefs(m, refs, w).Ok? ==> NoEmptyLevels(AddRefs(m, refs, w).value)
    decreases |refs|
  {
    if refs != [] && refs[0].credType.Str? && refs[0].name.Str? {
      AddRefNonEmpty(m, refs[0].credType.s, refs[0].name.s, w);
      AddRefsNonEmpty(AddRef(m, refs[0].credType.s, refs[0].name.s, w), refs[1..], w);
    }
  }

  lemma {:induction false} CollectFromNonEmpty(m: CredentialIndex, runs: seq<Fetched>)
    requires NoEmptyLevels(m)
    ensures CollectFrom(m, runs).Ok? ==> NoEmptyLevels(CollectFrom(m, runs).value)
    decreases |runs|
  {
    if runs != [] {
      var refs := ExtractCredentials(runs[0].workflow);
      if refs.Ok? {
        AddRefsNonEmpty(m, refs.value, runs[0].name);
        var m' := AddRefs(m, refs.value, runs[0].name);
        if m'.Ok? {
          CollectFromNonEmpty(m'.value, runs[1..]);
        }
      }
    }
  }

  /** Sorting keeps every level's length, so it keeps every level non-empty. */
  lemma ReportNonEmpty(m: CredentialIndex)
    requires NoEmptyLevels(m)
    ensures NoEmptyLevels(Report(m))
  {
    forall e | e in Report(m)
      ensures e.names != [] && NamesNonEmpty(e.names)
    {
      ReportMembers(m);
      var i := MappedUnsorted(m, e);
      assert m[i] in m;
      forall ne | ne in e.names
        ensures ne.workflows != []
      {
        var j := NamesUnsorted(m[i].names, ne);
        assert m[i].names[j] in m[i].names;
      }
    }
  }

  /**
   * The credentials report of an export run: types, names and workflow
   * names each strictly ascending (so no workflow is listed twice), no
   * type without names and no name without workflows, and a
   * workflow is listed under (type, name) exactly when that workflow's
   * nodes declare the credential.
   */
  function CredentialsReport(runs: seq<Fetched>): (r: Result<seq<TypeEntry>, CredentialError>)
    ensures r.Ok? <==> forall f :: f in runs ==> Collectable(f)
    ensures r.Ok? ==> ReportSorted(r.value)
    ensures r.Ok? ==> NoEmptyLevels(r.value)
    ensures r.Ok? ==> forall t, n, w :: Lists(r.value, t, n, w) <==> RunsDeclare(runs, t, n, w)
  {
    CollectFromOk([], runs);
    CollectFromNonEmpty([], runs);
    var m :- CollectCredentials(runs);
    ReportIsSorted(m);
    ReportNonEmpty(m);
    forall t, n, w ensures Lists(Report(m), t, n, w) <==> RunsDeclare(runs, t, n, w) {
      ReportLists(m, t, n, w);
      CollectFromLists([], runs, t, n, w);
    }
    Ok(Report(m))
  }
}
