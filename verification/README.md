# n8n-gitops export, manifest and env-schema core in Dafny

n8n-gitops keeps n8n workflows in a git repository. This project models
three pure pieces of its logic over an immutable JSON/YAML value tree
(`JsonValue.Value`). In that tree a mapping is an ordered member list:
lookup finds the first equal key, and assignment replaces that member in
place or appends a new one, as a Python `dict` does.

- **Export** (`n8n_gitops/commands/export_workflows.py`).
  - `_sanitize_filename` is three rewrite stages plus a fallback name (`Filenames`).
  - `_get_file_extension` maps a code field to a script extension.
  - `_externalize_workflow_code` walks `nodes[*].parameters[field]`. It replaces every eligible inline code string with an include directive that carries no checksum. Here it is a pure function that returns the rewritten workflow, the count and the list of `(path, content)` script writes, which stand in for the file writes (`Externalize`).
  - `_extract_credentials`, and the credential map that `run_export` aggregates and then sorts (`Credentials`, with the sort in `Ordering`).
- **Manifest** (`n8n_gitops/manifest.py`): `WorkflowSpec`, `WorkflowSpec.file`, `Manifest` and `load_manifest` (`Manifests`). The model starts from the outcome of reading and parsing the file: unreadable, unparsable, or a parsed tree. It ends with the manifest or the first error, checked in the code's fixed order.
- **Environment schema** (`n8n_gitops/envschema.py`): `validate_env_schema` (`EnvSchema`). It takes the following as parameters:
  - the schema file's state: absent, unloadable or loaded;
  - the environment, as a `map<string, string>`;
  - `re.match`, as a function that can also report a pattern that does not compile;
  - whether `int()` accepts a string.

  It returns either the ordered list of issues or the error the code raises.

Python's exceptions are modelled as the `Err` side of a `Result` (`Wrappers`). `Text` holds the `str` operations the code relies on:
- `strip()`, with Python's whitespace set;
- `strip("_")`;
- `startswith`;
- `in`;
- `lower()`.

## Model

| member | source | states |
|---|---|---|
| Filenames.ReplaceUnsafe | n8n_gitops/commands/export_workflows.py:314 | every character outside `[\w\-.]` becomes `_`, every other one stays where it was |
| Filenames.SanitizeFilename | n8n_gitops/commands/export_workflows.py:304-319 | the result is never empty, holds only word characters, `-` and `.`, has no `__`, neither starts nor ends with `_`, and has no `/` |
| Filenames.SanitizeKeepsContent | n8n_gitops/commands/export_workflows.py:314-319 | a name with no content characters (safe and not `_`) gives `"workflow"`; otherwise the result keeps exactly the content characters of the name, in order |
| Filenames.CollapseShape | n8n_gitops/commands/export_workflows.py:316 | collapsing runs of `_` keeps the end characters and the content characters, keeps a safe string safe, and leaves no `__` |
| Filenames.CollapseRun | n8n_gitops/commands/export_workflows.py:316 | a run of one or more `_` collapses exactly as a single `_` would: it is neither dropped nor kept longer |
| Filenames.SanitizeRun | n8n_gitops/commands/export_workflows.py:314-318 | a run of characters that are unsafe or `_` counts as a single `_`: the name sanitises exactly as if the run were one underscore, so inside the name the run leaves one `_` and at either end it disappears (the next two rows) |
| Filenames.LeadingRunDropped | n8n_gitops/commands/export_workflows.py:314-318 | a run of characters that are unsafe or `_` at the start of a name disappears: the name sanitises as if the run were not there, as in `__Name__` and `Name!@#$%^&*()` giving `Name` |
| Filenames.LeadingUnderscoreDropped | n8n_gitops/commands/export_workflows.py:316-318 | a single `_` in front of a name is stripped: it either merges with a `_` that follows or is removed by the strip |
| Filenames.TrailingUnderscoreDropped | n8n_gitops/commands/export_workflows.py:316-318 | a single `_` behind a name is stripped: it either merges with a `_` before it or is removed by the strip |
| Filenames.TrailingRunDropped | n8n_gitops/commands/export_workflows.py:314-318 | a run of characters that are unsafe or `_` at the end of a name disappears: the name sanitises as if the run were not there |
| Filenames.SanitizeDoubledUnderscore | tests/test_externalization.py:51-53 | doubling an inner underscore of an already sanitised name is undone, so `a__b` gives `a_b` and not `ab` |
| Filenames.DotNamesSurvive | n8n_gitops/commands/export_workflows.py:304-319 | the names `.` and `..` come back unchanged |
| Filenames.KeptStrip | n8n_gitops/commands/export_workflows.py:318 | stripping `_` from both ends loses no content character |
| Filenames.StrippedShape | n8n_gitops/commands/export_workflows.py:314-318 | a non-empty result of the three stages already has the sanitised shape, so the fallback is needed only for an empty one |
| Filenames.SanitizeFixesSanitized | n8n_gitops/commands/export_workflows.py:314-319 | a name that already has the sanitised shape comes back unchanged |
| Filenames.SanitizeIdempotent | n8n_gitops/commands/export_workflows.py:304-319 | sanitising twice gives the same name as sanitising once |
| Filenames.SanitizeFixedPoints | n8n_gitops/commands/export_workflows.py:304-319 | a name is left unchanged exactly when it has the sanitised shape |
| Externalize.FileExtension | n8n_gitops/commands/export_workflows.py:347-361 | `.py` exactly for `pythonCode`, `.js` exactly for `jsCode`, `code` and `functionCode`, `.txt` exactly for every other field |
| Externalize.ScriptPath | n8n_gitops/commands/export_workflows.py:416-429 | every script path starts with the text `scripts/<sanitised workflow name>/` |
| Externalize.EligibleMeansTrimmed | n8n_gitops/commands/export_workflows.py:407-413 | a value is moved out exactly when it is a string whose stripped text is non-empty and does not start with `@@n8n-gitops:include` |
| Externalize.DirectiveNotEligible | n8n_gitops/commands/export_workflows.py:411-430 | a written directive is never moved out again |
| Externalize.ExternalizeFields | n8n_gitops/commands/export_workflows.py:403-434 | the field loop's count equals its number of writes, and every write lies under the workflow's script directory |
| Externalize.FieldsFail | n8n_gitops/commands/export_workflows.py:396-416 | the field loop fails exactly when the node name is not a string and some field would be replaced, the point where `_sanitize_filename` raises |
| Externalize.FieldsCount | n8n_gitops/commands/export_workflows.py:403-434 | the count is the number of replaced parameters: present under a listed field name, eligible, and the first member with that key |
| Externalize.FieldsParams | n8n_gitops/commands/export_workflows.py:403-434 | each replaced parameter holds its directive in place, and every other parameter is unchanged |
| Externalize.FieldsWrites | n8n_gitops/commands/export_workflows.py:416-425 | the scripts written are exactly one per replaced parameter, with its original text as content |
| Externalize.FieldsInOrder | n8n_gitops/commands/export_workflows.py:403-434 | run from any point whose parameters agree with the original ones (same keys, only names already met changed, none of them still eligible), the field loop writes in the reference order |
| Externalize.FieldsWriteOrder | n8n_gitops/commands/export_workflows.py:403-434 | one node's writes come in the order of the code field names: for each name not met before whose lookup finds eligible code, one write of that original code to the node's script path (`WritesInFieldOrder`) |
| Externalize.NodeFailure | n8n_gitops/commands/export_workflows.py:392-416 | a node fails exactly when it is a dict with dict parameters, has code to move out, and has no string name |
| Externalize.NodeCount | n8n_gitops/commands/export_workflows.py:392-434 | a node adds as many to the count as it has replaced parameters, and nothing when it is skipped |
| Externalize.NodeRewrite | n8n_gitops/commands/export_workflows.py:392-433 | a skipped node is unchanged; a visited node keeps every member except `parameters`, which gets the directives |
| Externalize.NodeWrites | n8n_gitops/commands/export_workflows.py:416-425 | a node's scripts are exactly those of its replaced parameters |
| Externalize.ExternalizeNodes | n8n_gitops/commands/export_workflows.py:392-434 | the node loop keeps the number of nodes; its count equals its writes, all under the workflow's directory |
| Externalize.NodeWriteOrder | n8n_gitops/commands/export_workflows.py:392-434 | a node's writes are its fields' writes in field order, and none for a skipped node or one without a string name |
| Externalize.NodesFail | n8n_gitops/commands/export_workflows.py:392-434 | the node loop fails exactly when some node fails |
| Externalize.NodesCount | n8n_gitops/commands/export_workflows.py:434 | the total count is the sum of the nodes' replaced parameters |
| Externalize.NodesRewritten | n8n_gitops/commands/export_workflows.py:392-433 | each node of the result is the rewriting of the node at the same position |
| Externalize.NodesWrites | n8n_gitops/commands/export_workflows.py:416-425 | the writes are exactly one per replaced parameter of any node |
| Externalize.NodesWriteOrder | n8n_gitops/commands/export_workflows.py:392-434 | the node loop's writes are the nodes' writes concatenated in document order (`DocumentWrites`) |
| Externalize.ExternalizeWorkflowCode | n8n_gitops/commands/export_workflows.py:364-438 | a `nodes` value that is not a list gives the workflow back unchanged with count 0; every top-level member other than `nodes` is unchanged; count equals writes; every write's path starts with the text `scripts/<sanitised workflow name>/` |
| Externalize.ExportWorkflowCode | n8n_gitops/commands/export_workflows.py:364-386 | a workflow name that is not a string fails with its own error before the nodes are looked at, and a string name exports as `ExternalizeWorkflowCode` does |
| Externalize.ExternalizeFailsOnNodeName | n8n_gitops/commands/export_workflows.py:415 | the export of a workflow with a string name fails only on a node name that is not a string |
| Externalize.WorkflowFails | n8n_gitops/commands/export_workflows.py:388-434 | the export of a workflow fails exactly when its node list holds a failing node |
| Externalize.WorkflowCount | n8n_gitops/commands/export_workflows.py:381-438 | the returned count is the number of replaced code values in the whole workflow |
| Externalize.WorkflowRewritten | n8n_gitops/commands/export_workflows.py:388-433 | the result's node list has the same length and each node is the rewriting of the original one |
| Externalize.WorkflowWrites | n8n_gitops/commands/export_workflows.py:416-425 | the workflow's writes are exactly the scripts of its replaced parameters |
| Externalize.WorkflowWriteOrder | n8n_gitops/commands/export_workflows.py:388-434 | the workflow's writes are its nodes' writes in document order, each node's in field order; none when `nodes` is not a list |
| Externalize.FinalFiles | n8n_gitops/commands/export_workflows.py:425 | the files after the writes, keyed by their exact path strings, are exactly the written paths |
| Externalize.LastWriteWins | n8n_gitops/commands/export_workflows.py:420-425 | a file holds the content of the last write to its path |
| Externalize.FinalFilesLast | n8n_gitops/commands/export_workflows.py:425 | every file on disk holds the content of the last write to its path |
| Externalize.WorkflowFinalFiles | n8n_gitops/commands/export_workflows.py:388-434 | every script file the export leaves holds the code of the last value, in document order, moved out to its path |
| Externalize.SameNameLaterWins | tests/test_externalization.py:229-261 | two nodes whose names sanitise alike both write the same file, and it finally holds the second node's code |
| Externalize.WorkflowDirective | n8n_gitops/commands/export_workflows.py:429-433 | a replaced code value becomes `@@n8n-gitops:include <its script path>`, at the same position under the same key |
| Externalize.WorkflowRoundTrip | n8n_gitops/commands/export_workflows.py:416-433 | when no two writes share a path, the file a directive names holds the original code character for character |
| Externalize.DirectiveCarriesNoChecksum | n8n_gitops/commands/export_workflows.py:429-430 | a generated directive never contains `sha256=` |
| Credentials.ExtractCredentials | n8n_gitops/commands/export_workflows.py:322-344 | fails exactly when `nodes` is not iterable; otherwise it reports a `(type, name)` pair exactly when some dict node's `credentials` dict has an entry of that type whose dict value holds that `name` |
| Credentials.AddNameWellFormed | n8n_gitops/commands/export_workflows.py:159-164 | recording a workflow keeps names unique and never lists a workflow twice under one name |
| Credentials.AddRefWellFormed | n8n_gitops/commands/export_workflows.py:155-164 | recording a reference keeps credential types unique and their name lists well formed |
| Credentials.AddRefLists | n8n_gitops/commands/export_workflows.py:155-164 | recording a reference lists exactly one more `(type, name, workflow)` triple |
| Credentials.AddRefsSpec | n8n_gitops/commands/export_workflows.py:149-164 | one workflow's references are recorded exactly when all are string pairs; the map stays well formed and gains exactly those triples |
| Credentials.CollectFromOk | n8n_gitops/commands/export_workflows.py:149-164 | the aggregation succeeds exactly when every fetched workflow's references extract and are strings, and keeps the map well formed |
| Credentials.CollectFromLists | n8n_gitops/commands/export_workflows.py:149-164 | the aggregated map lists a triple exactly when it was already listed or that workflow declares that credential |
| Credentials.ReportLists | n8n_gitops/commands/export_workflows.py:236-245 | sorting the map for output keeps exactly the listed triples |
| Credentials.ReportIsSorted | n8n_gitops/commands/export_workflows.py:238-241 | the output is strictly sorted by type, each name list by name, and each workflow list by workflow |
| Credentials.CollectFromNonEmpty | n8n_gitops/commands/export_workflows.py:149-164 | the aggregation never leaves a credential type without names or a name without workflows, since levels are created only when a reference is recorded into them |
| Credentials.ReportNonEmpty | n8n_gitops/commands/export_workflows.py:236-245 | sorting keeps every level's length, so the report has no empty level either |
| Credentials.CredentialsReport | n8n_gitops/commands/export_workflows.py:149-245 | the report exists exactly when every workflow's references are string pairs; it is strictly sorted at all three levels and lists a triple exactly when that workflow declares that credential; no type is without names and no name without workflows |
| Ordering.SortBy | n8n_gitops/commands/export_workflows.py:238-241 | `sorted` gives a permutation of its input, in ascending order of the key |
| Ordering.SortByStrict | n8n_gitops/commands/export_workflows.py:238-241 | sorting distinct keys gives a strictly ascending sequence |
| Ordering.LessTotal | n8n_gitops/commands/export_workflows.py:238 | string order is total |
| Ordering.LessTransitive | n8n_gitops/commands/export_workflows.py:238 | string order is transitive |
| Manifests.WorkflowFile | n8n_gitops/manifest.py:21-26 | the path is `workflows/`, then the sanitised name, then `.json` |
| Manifests.WorkflowFileInDirectory | n8n_gitops/manifest.py:21-26 | the path has no `/` after `workflows/` |
| Manifests.StringList | n8n_gitops/manifest.py:121-149 | an optional list field is accepted exactly when it is a list of strings, with those strings in order; otherwise it gives the not-a-list or not-a-string error for its entry and field |
| Manifests.Tags | n8n_gitops/manifest.py:73-82 | the `tags` mapping is accepted exactly when it is a mapping of strings to strings, with the pairs in document order |
| Manifests.Entry | n8n_gitops/manifest.py:96-159 | an accepted entry is a mapping whose `name` is the spec's name, non-empty and not seen before; a rejected one fails with an error about that entry |
| Manifests.EntryFields | n8n_gitops/manifest.py:115-159 | an accepted entry's `active` (default false) is the spec's flag, and its `tags`, `requires_credentials` and `requires_env` (default empty) are lists of strings equal to the spec's lists, element by element |
| Manifests.EntryNameErrors | n8n_gitops/manifest.py:96-112 | the name checks come first and in order: not a mapping, no `name`, a name that is not a non-empty string, then a duplicate name |
| Manifests.EntryFieldErrors | n8n_gitops/manifest.py:115-159 | after the name, `active` is checked, then `tags`, `requires_credentials` and `requires_env`; the first failing check gives the error, and an entry is accepted when none fails |
| Manifests.EntrySeen | n8n_gitops/manifest.py:109-112 | the names seen before an entry only decide whether it is a duplicate |
| Manifests.EntryDefaults | n8n_gitops/manifest.py:115-149 | an entry with only a name gets `active` false and empty `tags`, `requires_credentials` and `requires_env` |
| Manifests.EntriesOk | n8n_gitops/manifest.py:96-159 | the entry loop succeeds exactly when every entry is accepted on its own and the names are distinct; then spec `i` is the one from entry `i` |
| Manifests.EntriesFirstError | n8n_gitops/manifest.py:96-149 | a failing entry loop reports the error of the first entry that fails, after all entries before it were accepted |
| Manifests.LoadManifest | n8n_gitops/manifest.py:37-161 | an unreadable or unparsable file and a non-mapping root fail with their own errors; success needs a root mapping with a `workflows` key |
| Manifests.LoadHeaderErrors | n8n_gitops/manifest.py:67-82 | the `externalize_code` error occurs exactly when that value is present and not a boolean; a tags error occurs exactly when `externalize_code` passed and `tags` is not a mapping of strings |
| Manifests.LoadWorkflowsErrors | n8n_gitops/manifest.py:84-90 | after the header checks, a missing `workflows` key and a non-list `workflows` value fail with their own errors, and only then |
| Manifests.LoadEntryError | n8n_gitops/manifest.py:64-112 | an entry error is reported only after root, `externalize_code`, `tags` and `workflows` all passed, and it is the entry loop's error |
| Manifests.LoadSuccess | n8n_gitops/manifest.py:67-161 | for any root mapping, loading gives manifest `m` exactly when `externalize_code` (default true) is `m`'s flag, `tags` (default empty) reads as `m`'s tags, `workflows` is a list, and its entries load to `m`'s workflows in order; other keys and the key order play no part |
| Manifests.ManifestDefaults | n8n_gitops/manifest.py:67-90 | for any root without `externalize_code` and `tags`, a loaded manifest externalises code and has no tags; a root holding only an empty `workflows` list gives no workflows |
| Manifests.ExternalizeOff | n8n_gitops/manifest.py:67-70 | `externalize_code: false` placed after `workflows` is honoured, and with an empty list loads to a manifest with no workflows and no tags that does not externalise code |
| Manifests.LoadedNamesDistinct | n8n_gitops/manifest.py:106-112 | every loaded workflow has a non-empty name, and no two share one |
| Manifests.LoadEncoded | n8n_gitops/manifest.py:37-161 | writing any manifest with distinct non-empty names as a YAML tree and loading it gives the same manifest back |
| EnvSchema.RequiredIssues | n8n_gitops/envschema.py:66-71 | the required loop raises exactly when some name is not a string, on the first such name; otherwise it reports only missing variables |
| EnvSchema.RequiredMembers | n8n_gitops/envschema.py:70-71 | a variable is reported missing exactly when it is a required name that is absent from the environment or empty |
| EnvSchema.RequiredInOrder | n8n_gitops/envschema.py:67-71 | the missing-variable issues come one per unset required name, in list order |
| EnvSchema.VarIssues | n8n_gitops/envschema.py:74-104 | a non-dict spec or an unset variable adds nothing; an unusable pattern raises; otherwise at most a pattern issue then a type issue, each exactly when its check fails |
| EnvSchema.VarsOk | n8n_gitops/envschema.py:74-89 | the vars loop raises exactly when some checked variable's pattern is not a string or does not compile |
| EnvSchema.VarsMembers | n8n_gitops/envschema.py:74-104 | the vars loop reports exactly the issues of its single variables |
| EnvSchema.VarsInOrder | n8n_gitops/envschema.py:74-104 | with distinct keys, the vars issues follow declaration order, with the pattern issue before the type issue of the same variable |
| EnvSchema.Validate | n8n_gitops/envschema.py:31-106 | an absent schema gives no issues; an unloadable one, a non-object one, a non-list `required` and a non-object `vars` each raise their own error, in that order; a non-string required name raises |
| EnvSchema.ValidateAccepts | n8n_gitops/envschema.py:31-106 | validation returns a list exactly when the schema is absent, or loaded and well shaped with string required names and usable patterns |
| EnvSchema.ValidateParts | n8n_gitops/envschema.py:64-106 | the returned list is the required-variable issues followed by the vars issues |
| EnvSchema.ValidateRequired | n8n_gitops/envschema.py:66-71 | the result reports a variable missing exactly when it is required and unset |
| EnvSchema.ValidateRequiredFirst | n8n_gitops/envschema.py:66-104 | all missing-variable issues come first, one per unset required name in list order |
| EnvSchema.ValidateVarsOrder | n8n_gitops/envschema.py:73-104 | after the missing-variable issues, the vars issues follow declaration order, pattern before type |
| EnvSchema.ValidatePattern | n8n_gitops/envschema.py:82-89 | a pattern issue is reported exactly for a set variable whose value its pattern does not match |
| EnvSchema.ValidateInteger | n8n_gitops/envschema.py:94-98 | an integer issue is reported exactly for a set variable of type `integer` whose value `int()` rejects |
| EnvSchema.ValidateBoolean | n8n_gitops/envschema.py:99-104 | a boolean issue is reported exactly for a set variable of type `boolean` whose lower-cased value is not one of `true`, `false`, `1`, `0`, `yes`, `no` |

## Left out

- I/O: reading the snapshot, `mkdir`, writing scripts and YAML, and logging. The model returns the script writes and the errors instead.
- YAML and JSON text parsing. `Manifests.Source` and `EnvSchema.Schema` stand for a read or parse that failed.
- `re.match` and `int()` in the env validator are parameters, not interpreted.
- The `.env` file (`env_file`) and `os.environ` are not modelled. The environment is a parameter.
- `CODE_FIELD_NAMES` comes from `render.py`, which is not part of this model. It is a parameter of `ExternalizeWorkflowCode`.
- The rest of `run_export`, `cli.py`, `logger.py`, `n8n_client.py` and `create_project.py` are not part of this model. This includes fetching, pagination, `normalize_json`, `strip_volatile_fields` and directory cleaning.
- Filenames.IsWordChar: `\w` is ASCII `[A-Za-z0-9_]`. Python's Unicode word characters are not modelled.
- Text.Lower: lower-cases ASCII letters only, where `str.lower()` also lower-cases other letters. For the boolean check this gives the same answer on every value. A value containing a non-ASCII character is accepted by neither version. Python maps only two non-ASCII characters to ASCII output: the Kelvin sign becomes `k`, and `İ` becomes `i` followed by a combining dot. None of `true`, `false`, `1`, `0`, `yes` and `no` contains a `k` or a combining mark.
- Credentials.AddRefsSpec: a credential type or name that is not a string is an error in the model. Python would use any hashable value as a key.
- Floats and other YAML scalars are not values of the tree. Only `null`, booleans, integers, strings, lists and mappings are modelled.
- EnvSchema.VarsInOrder: needs the `vars` keys to be distinct, which a JSON object parsed by Python always is.
- EnvSchema.ValidateVarsOrder: same assumption as `VarsInOrder`.
- Externalize.WorkflowRoundTrip: the files are a map from exact path strings to strings. The model does not cover the text encoding of `write_text`, which raises `UnicodeEncodeError` on a lone surrogate or on a character the locale cannot encode. Nor does it cover case-insensitive file systems, where `Foo` and `foo` are distinct keys here but one file on disk, so the later node's code overwrites the earlier one's.
- Externalize.WorkflowRoundTrip: needs distinct script paths. Paths are shared when two nodes' names sanitise alike, or when one node holds code under two field names with the same extension. Then the file holds the code of the last such value in document order (`WorkflowFinalFiles`, `SameNameLaterWins`). The earlier directives name a file that holds that later code. This is the behaviour the tests expect.
- Externalize.ExternalizeWorkflowCode: when a node without a string name holds code, the model returns only the error. Python has already written the scripts of the earlier nodes by then, and they stay on disk after the command reports the error (`n8n_gitops/cli.py:224-226`). The model does not list those partial writes.
- Externalize.ScriptPath: the path only starts with the text `scripts/<sanitised workflow name>/`. Path segments are not normalised. A workflow named `.` or `..` keeps that name through sanitising (`DotNamesSurvive`), so `scripts/../<node>.js` leaves the scripts directory once resolved. The model does not treat such a path as an error, and neither does the code.
- Reading a script back through an include directive belongs to `render.py`, which is not part of this model. The round trip stops at "the file the directive names holds the code".
- Manifest `tags` is modelled as the code reads it: a mapping of tag ids to tag names. `tests/test_manifest.py:135-220` expects a list of tag names, plus a check of each workflow's tags against that list. Those tests disagree with `n8n_gitops/manifest.py:73-82`, and this open discrepancy is not modelled.
