# protobuf-partial, modelled in Dafny

protobuf-partial builds a parser that decodes only some fields of a protocol-buffer
message. The caller names the wanted fields as dot-separated paths (`person.name`,
`phones.number`). The library turns the paths into a selection tree rooted at the
message's name (`Field`). It then prunes the message descriptor along that tree
(`PartialDynamicSchema`). The result is a reduced message definition that keeps the
selected fields and the types they need. That definition is handed to a dynamic-schema
builder and looked up again under the message's name. Everything else is discarded on
parsing.

This project models both halves and proves what they promise.

- `field.dfy` (module `SelectionTree`) covers the selection tree.
  - `Field` is a class whose `subFields` map is updated in place, as in the source.
    `Parse` and `Insert` are loops that advance a cursor down the tree.
  - A ghost map `pathOf` gives each node its path from the root, and the invariant
    `IsTree` ties the map to the heap. The value of a tree is the path set
    `pathOf.Values`.
  - `Selector` is the value a `Field` tree is read into with `ToSelector`. Its children
    come in the arbitrary order of `getSubFields`.
  - `Split` models `StringUtils.split(path, ".")`: it splits on dots and drops empty
    tokens.
- `descriptors.dfy` (module `Descriptors`) holds the descriptor pool. Message and enum
  types are keyed by their simple name. Each field is a scalar with its declared
  default, an enum reference, a message reference or a map-entry reference.
  `ValidPool` states the consistency the protobuf runtime guarantees.
- `definitions.dfy` (module `Definitions`) holds the definitions the pruner emits:
  `MessageDef`, `EnumDef` and `FieldEntry`. `WellScoped` states the scope rules a
  schema compiler needs:
  - nested names are unique in each scope;
  - every field's type is a built-in scalar or is nested in the same scope.
- `pruner.dfy` (module `PartialDynamicSchema`) has `toMessageDef`, `toMapDef`,
  `toEnumDef` and `getLabel`. They are pure mutually recursive functions that thread
  the builder as a value.
  - In the cycle policy, an in-progress set is threaded through the wildcard expansion
    only. Re-entering a type still being expanded is the error `CyclicSchema`.
  - An explicit selection follows the finite selection tree, so it terminates without
    a guard, even on recursive types. Wherever the source finishes, the corrected
    pruner differs from it only in the enum-valued map entries listed under Findings
    (`AsWritten.AsWrittenAgrees`). It reports `CyclicSchema` exactly where the source
    does not finish (`AsWritten.CycleExactlyWhereSourceDiverges`).
- `pruner_props.dfy` (module `PrunerProperties`) holds the properties of the pruner:
  - its output is well scoped and agrees with the descriptors at every level;
  - a wildcard keeps every field and an explicit selection keeps exactly the selected
    ones;
  - a missing name fails, with the first missing name in selection order;
  - an explicit selection whose every name resolves, down to its leaves, never fails
    with a missing field, and on an acyclic schema it succeeds;
  - an acyclic schema never reports a cycle;
  - nested definitions are those of the referenced types, each pruned under the
    sub-selection of the first field of its type, with no others;
  - a type used twice in one scope is defined once, from its first use.
- `partial_parser.dfy` (module `PartialParser`) covers `toDynamicSchema`, the lookup by
  name, and `getPartialParser`, which composes parse, prune and lookup.
- `as_written.dfy` (module `AsWritten`) transcribes the pruner exactly as the source
  writes it, next to the counterexamples listed under Findings. For every pool and
  selection, a simulation proves two things. Wherever the source finishes, the two
  differ only in the enum-valued map entries. The corrected pruner reports a cycle
  exactly where the source never finishes.
- `wrappers.dfy` holds `Option` and `Result`.

Source paths below are relative to the repository root.

## Model

| member | source | states |
|---|---|---|
| SelectionTree.Field.constructor | src/main/java/com/github/fqroot0/pbpartial/Field.java:22-25 | a new node has the given name and no children |
| SelectionTree.Field.PutSubFieldIfAbsent | src/main/java/com/github/fqroot0/pbpartial/Field.java:27-29 | if a child is stored under the new node's name, it is returned and the map is unchanged; otherwise the result is null and the node is stored under its own name |
| SelectionTree.Field.Contains | src/main/java/com/github/fqroot0/pbpartial/Field.java:35-37 | for a node whose children are keyed by their names, true exactly when some child has that name |
| SelectionTree.Field.GetSubFields | src/main/java/com/github/fqroot0/pbpartial/Field.java:31-33 | the returned nodes are exactly the stored children, one per map entry, in an unspecified order; each is paired with the distinct key it is stored under |
| SelectionTree.Field.Descend | src/main/java/com/github/fqroot0/pbpartial/Field.java:45-47 | one inner-loop step keeps the tree invariant and moves the cursor to the node one segment below; it adds exactly that one path, and changes nothing if the path was already there |
| SelectionTree.Field.Insert | src/main/java/com/github/fqroot0/pbpartial/Field.java:42-48 | inserting a path keeps the tree invariant and adds exactly the path's prefixes to the tree's path set; existing nodes keep their paths and new nodes are fresh; a path whose prefixes are already present changes no node |
| SelectionTree.Field.Parse | src/main/java/com/github/fqroot0/pbpartial/Field.java:39-51 | the root carries the given name, the result is a tree, its path set is exactly the prefixes of the split paths, and an empty path list gives a root with no children |
| SelectionTree.Field.ToSelector | src/main/java/com/github/fqroot0/pbpartial/Field.java:31-33 | the selector describes the subtree: the same names, one sub-selector per child with no name twice, each describing that child |
| SelectionTree.Split | src/main/java/com/github/fqroot0/pbpartial/Field.java:43 | every token is non-empty and contains no dot |
| SelectionTree.SplitJoin | src/main/java/com/github/fqroot0/pbpartial/Field.java:43 | splitting the dot-join of non-empty, dot-free segments returns those segments |
| SelectionTree.SplitAtDot | src/main/java/com/github/fqroot0/pbpartial/Field.java:43 | for every string, splitting at any one of its dots gives the segments before that dot followed by the segments after it |
| SelectionTree.SplitOfSegment | src/main/java/com/github/fqroot0/pbpartial/Field.java:43 | a non-empty dot-free path splits into itself alone, so with `SplitAtDot` the split of every path is determined |
| SelectionTree.SplitDropsEmptySegments | src/main/java/com/github/fqroot0/pbpartial/Field.java:43 | a doubled dot yields no empty segment: `a..b` splits into `a`, `b` |
| SelectionTree.SplitOfDotsIsEmpty | src/main/java/com/github/fqroot0/pbpartial/Field.java:43 | the empty path and a path of only dots select nothing |
| SelectionTree.PathsOfMembers | src/main/java/com/github/fqroot0/pbpartial/Field.java:41-48 | a path is in the parsed path set iff it is the root path or a prefix of some input path's segments |
| SelectionTree.PathsOfIgnoresOrder | src/main/java/com/github/fqroot0/pbpartial/Field.java:41-48 | two path lists with the same members, whatever their order or repeats, give the same path set |
| SelectionTree.ReachSound | src/main/java/com/github/fqroot0/pbpartial/Field.java:44-47 | a walk down the children by names ends at the node whose path is the walked segments, named by the last segment |
| SelectionTree.ReachComplete | src/main/java/com/github/fqroot0/pbpartial/Field.java:44-47 | every node is reached from the root by walking its own path |
| SelectionTree.ReachExactly | src/main/java/com/github/fqroot0/pbpartial/Field.java:44-47 | a walk from the root succeeds iff its segments are a path of the tree |
| SelectionTree.ParsedTreeHoldsExactlyThePaths | src/main/java/com/github/fqroot0/pbpartial/Field.java:39-51 | in a parsed tree, a walk from the root succeeds iff it follows a prefix of some input path's segments; no other chain exists |
| SelectionTree.RootChildren | src/main/java/com/github/fqroot0/pbpartial/Field.java:44-47 | the root of a parsed tree has a child `k` iff some input path's first segment is `k` |
| SelectionTree.RootChildrenAll | src/main/java/com/github/fqroot0/pbpartial/Field.java:44-47 | the same, for every name at once |
| SelectionTree.ParsedSelector | src/main/java/com/github/fqroot0/pbpartial/Field.java:39-51 | the selector of a parsed tree has the root's name; it is a wildcard iff no path has a segment, and otherwise names exactly the paths' first segments |
| Descriptors.FindField | src/main/java/com/github/fqroot0/pbpartial/PartialDynamicSchema.java:56-59 | `findFieldByName`: a result is a field of that name; no result means no field has that name |
| Descriptors.FindFieldFindsEach | src/main/java/com/github/fqroot0/pbpartial/PartialDynamicSchema.java:56 | with unique names, looking up a field's name finds that field |
| Descriptors.ScalarByName | src/main/java/com/github/fqroot0/pbpartial/PartialDynamicSchema.java:62 | a type word read back names the scalar type it is the word of |
| Descriptors.ScalarNameRoundTrip | src/main/java/com/github/fqroot0/pbpartial/PartialDynamicSchema.java:62 | the lower-cased type name of each scalar type reads back as that type |
| PartialDynamicSchema.GetLabel | src/main/java/com/github/fqroot0/pbpartial/PartialDynamicSchema.java:130-141 | the label word reads back as the field's label, so the mapping is one to one; it is `repeated` exactly for repeated fields |
| PartialDynamicSchema.EntryOf | src/main/java/com/github/fqroot0/pbpartial/PartialDynamicSchema.java:61-74 | an emitted entry has the source field's name, number and label; a scalar's type word reads back as its type, and any other type is the referenced type's name; it has a default exactly when the field is a non-repeated scalar, and that default is the declared one |
| PartialDynamicSchema.AddValues | src/main/java/com/github/fqroot0/pbpartial/PartialDynamicSchema.java:124-126 | adding values one by one appends them in order and keeps the name |
| PartialDynamicSchema.ToEnumDef | src/main/java/com/github/fqroot0/pbpartial/PartialDynamicSchema.java:121-128 | the enum definition has the enum's name and every (name, number) value in source order |
| PartialDynamicSchema.ToMessageDef | src/main/java/com/github/fqroot0/pbpartial/PartialDynamicSchema.java:44-102 | on success the definition is named after the descriptor, is not a map entry, and holds in selection order the entry of each selected field (every field under a wildcard); a not-found error names a message type of the pool and a name that type has no field for |
| PartialDynamicSchema.AddFields | src/main/java/com/github/fqroot0/pbpartial/PartialDynamicSchema.java:54-100 | the `forEach` from the `i`-th selector on appends the entries of the selected fields in order and keeps the builder's name and flag |
| PartialDynamicSchema.AddField | src/main/java/com/github/fqroot0/pbpartial/PartialDynamicSchema.java:55-98 | one selected name appends exactly the entry of the field of that name, or fails when there is none |
| PartialDynamicSchema.ToMapDef | src/main/java/com/github/fqroot0/pbpartial/PartialDynamicSchema.java:104-119 | the map-entry definition is flagged as a map entry and has `key` = 1 of the key's type and `value` = 2; a message value is pruned with a wildcard and nested alone, and an enum value's enum is nested alone |
| PrunerProperties.AddEntrySound | src/main/java/com/github/fqroot0/pbpartial/PartialDynamicSchema.java:72-73 | adding a faithful entry whose type is nested keeps the definition well scoped and faithful |
| PrunerProperties.AddEnumSound | src/main/java/com/github/fqroot0/pbpartial/PartialDynamicSchema.java:76-79 | nesting a not-yet-present enum keeps the definition sound and makes it contain that enum |
| PrunerProperties.AddMessageSound | src/main/java/com/github/fqroot0/pbpartial/PartialDynamicSchema.java:85-93 | nesting a sound, not-yet-present message keeps the definition sound and makes it contain that message |
| PrunerProperties.MessageDefSound | src/main/java/com/github/fqroot0/pbpartial/PartialDynamicSchema.java:44-102 | every definition `toMessageDef` emits is well scoped (nested names unique, every type resolves) and agrees with the source descriptors at every level |
| PrunerProperties.FieldsSound | src/main/java/com/github/fqroot0/pbpartial/PartialDynamicSchema.java:54-100 | the field loop keeps a sound builder sound |
| PrunerProperties.FieldSound | src/main/java/com/github/fqroot0/pbpartial/PartialDynamicSchema.java:55-98 | one selected field keeps a sound builder sound |
| PrunerProperties.MapDefSound | src/main/java/com/github/fqroot0/pbpartial/PartialDynamicSchema.java:104-119 | every map-entry definition is well scoped and agrees with the source |
| PrunerProperties.SelectMatches | src/main/java/com/github/fqroot0/pbpartial/PartialDynamicSchema.java:54-59 | selection succeeds iff every selected name has a field; the selected fields are those lookups, one per name |
| PrunerProperties.SelectLeaves | src/main/java/com/github/fqroot0/pbpartial/PartialDynamicSchema.java:45-50 | the wildcard's fresh leaves select every field of the descriptor, in descriptor order |
| PrunerProperties.WildcardKeepsEveryField | src/main/java/com/github/fqroot0/pbpartial/PartialDynamicSchema.java:45-50 | under a wildcard the entries are those of all the descriptor's fields, and the emitted names are the descriptor's field names in order |
| PrunerProperties.ExplicitKeepsSelected | src/main/java/com/github/fqroot0/pbpartial/PartialDynamicSchema.java:54-59 | under an explicit selection the emitted names are exactly the selector's names, each entry being that field's entry; if any selected name has no field, the call fails |
| PrunerProperties.ExplicitReportsFirstMissing | src/main/java/com/github/fqroot0/pbpartial/PartialDynamicSchema.java:54-59 | when the `j`-th selected name is the first with no field and every earlier one resolves, the call fails with exactly that name and the searched message type |
| PrunerProperties.ResolvableNeverMissing | src/main/java/com/github/fqroot0/pbpartial/PartialDynamicSchema.java:54-98 | when every selected name, at every level of the selection, names a field, and each selected message field's type is in the pool, pruning never fails with a missing field |
| PrunerProperties.ResolvableSucceedsWhenAcyclic | src/main/java/com/github/fqroot0/pbpartial/PartialDynamicSchema.java:54-98 | on an acyclic schema such a selection always succeeds |
| PrunerProperties.AcyclicNeverCyclic | src/main/java/com/github/fqroot0/pbpartial/PartialDynamicSchema.java:84-98 | when message types can be ranked so that references go strictly down, the cycle guard never fires |
| PrunerProperties.MessageNoCycle | src/main/java/com/github/fqroot0/pbpartial/PartialDynamicSchema.java:84-98 | the same for nested calls, with every in-progress type ranked above the current one |
| PrunerProperties.MapNoCycle | src/main/java/com/github/fqroot0/pbpartial/PartialDynamicSchema.java:111-115 | the same for map-entry definitions |
| PrunerProperties.WildcardNeverMissing | src/main/java/com/github/fqroot0/pbpartial/PartialDynamicSchema.java:45-59 | a wildcard never fails with a missing field, however deep it recurses |
| PrunerProperties.MapNeverMissing | src/main/java/com/github/fqroot0/pbpartial/PartialDynamicSchema.java:111-115 | nor does a map-entry definition |
| PrunerProperties.WildcardTotalWhenAcyclic | src/main/java/com/github/fqroot0/pbpartial/PartialDynamicSchema.java:45-50 | on an acyclic schema a wildcard always succeeds |
| PrunerProperties.EntryDefinesReference | src/main/java/com/github/fqroot0/pbpartial/PartialDynamicSchema.java:75-98 | in a sound definition, an entry's referenced enum is that enum's definition, and a message or map reference is a nested definition of that name with the right map-entry flag |
| PrunerProperties.NestedDefinitionsMatch | src/main/java/com/github/fqroot0/pbpartial/PartialDynamicSchema.java:75-98 | for every field `toMessageDef` emits, the type it references is defined in the same scope; a map field's entry is labelled `repeated` |
| PrunerProperties.NestedForShape | src/main/java/com/github/fqroot0/pbpartial/PartialDynamicSchema.java:85-97 | a definition nested for the `j`-th selected field has that field's type name; for a message field it is pruned from that type under the field's own sub-selection, for a map field it has the map-entry shape |
| PrunerProperties.NestedMessagesPruned | src/main/java/com/github/fqroot0/pbpartial/PartialDynamicSchema.java:54-100 | on success, every first field of a type has its nested definition in the scope, built from that field and its sub-selection, and every nested definition comes from such a first field; there are no others |
| PrunerProperties.NestedMessagePrunedFrom | src/main/java/com/github/fqroot0/pbpartial/PartialDynamicSchema.java:85-93 | the nested definition of the first message field of a type is that type pruned under the field's sub-selection: the same entries as pruning the type directly |
| PrunerProperties.FirstOccurrenceWins | src/main/java/com/github/fqroot0/pbpartial/PartialDynamicSchema.java:85-97 | once a type is nested in the scope, a further field of that type adds its entry only, whatever its sub-selection |
| PrunerProperties.SharedTypeKeepsFirstSelection | src/main/java/com/github/fqroot0/pbpartial/PartialDynamicSchema.java:85-97 | selecting `a.x` and `b.y`, with `a` before `b` in the selector and both of one type, nests that type with `x` only (which field comes first follows `getSubFields`' order) |
| PartialParser.FindMessageDef | src/main/java/com/github/fqroot0/pbpartial/PartialDynamicSchema.java:146 | a found definition is one of the schema's and has the name looked up; none means no definition of that name |
| PartialParser.ToDynamicSchema | src/main/java/com/github/fqroot0/pbpartial/PartialDynamicSchema.java:29-42 | the schema keeps the syntax and holds one definition; looking up the descriptor's name finds the pruned definition; it fails exactly when pruning fails |
| PartialParser.PrunesToFirstSegments | src/main/java/com/github/fqroot0/pbpartial/PartialDynamicSchema.java:143-146 | for a selector of the paths' first segments: with no segment every field is kept, otherwise the kept names are exactly the first segments, and a first segment naming no field fails |
| SelectionTree.ParsedSecondSegments | src/main/java/com/github/fqroot0/pbpartial/Field.java:39-51 | in a parsed tree, a child of the root is a wildcard iff no path continues below its name, and otherwise names exactly the second segments of the paths below it |
| PartialParser.NestedAlongPaths | src/main/java/com/github/fqroot0/pbpartial/PartialDynamicSchema.java:143-146 | the nested messages, read along the paths: all fields kept under no segment; otherwise each one is the type of a field some path starts with, keeping all fields or exactly the second segments below that field; every message field a path starts with has its type nested |
| PartialParser.GetPartialParser | src/main/java/com/github/fqroot0/pbpartial/PartialDynamicSchema.java:143-146 | the partial definition is found under the message's name and is sound. With no non-empty path it keeps every field; otherwise it keeps exactly the fields named by first segments and fails on a name with no field. One level down, every nested message keeps all its fields when no path has a segment; otherwise each is the type of a field some path starts with, keeping all its fields when no path continues below that field and exactly the second segments below it when one does. The type of every message field a path starts with is nested. On an acyclic schema it never reports a cycle. A missing-field error names a message type of the pool and a name it has no field for. When every path resolves segment by segment through message fields, it never fails with a missing field, and on an acyclic schema it succeeds; with no non-empty path it succeeds on an acyclic schema |
| PartialParser.PathResolvesPrefix | src/main/java/com/github/fqroot0/pbpartial/PartialDynamicSchema.java:54-93 | a path that resolves segment by segment has every prefix resolve too |
| PartialParser.ParsedResolvable | src/main/java/com/github/fqroot0/pbpartial/PartialDynamicSchema.java:143-146 | when every input path resolves, the selector parsed from the paths resolves at every level |
| PartialParser.PeopleNested | src/main/java/com/github/fqroot0/pbpartial/PartialDynamicSchema.java:143-146 | for `AddressBook { repeated Person people = 1; }` selected as `people.name`, the message nested for `people` is `Person` with the field `name` only |
| PartialParser.PeopleName | src/main/java/com/github/fqroot0/pbpartial/PartialDynamicSchema.java:143-146 | the same call succeeds, keeps only `people`, and nests `Person` with only `name` |
| AsWritten.ToMessageDefAsWritten | src/main/java/com/github/fqroot0/pbpartial/PartialDynamicSchema.java:44-102 | the source's `toMessageDef`, with no cycle guard and bounded by fuel; when it finishes, it selects the same entries as the corrected pruner |
| AsWritten.AddFieldsAsWritten | src/main/java/com/github/fqroot0/pbpartial/PartialDynamicSchema.java:54-100 | the source's field loop appends the entries of the selected fields in order |
| AsWritten.AddFieldAsWritten | src/main/java/com/github/fqroot0/pbpartial/PartialDynamicSchema.java:55-98 | the source's loop body appends the entry of the selected field |
| AsWritten.ToMapDefAsWritten | src/main/java/com/github/fqroot0/pbpartial/PartialDynamicSchema.java:104-119 | the source's `toMapDef` yields a map entry of that name with fields `key` then `value` and no nested enum |
| AsWritten.MessageSim | src/main/java/com/github/fqroot0/pbpartial/PartialDynamicSchema.java:44-102 | whenever the source's recursion finishes, the corrected pruner gives the same definition up to the enum-valued map entries or the same missing-field error, or reports the cycle of a type further out whose expansion the source entered |
| AsWritten.Descent | src/main/java/com/github/fqroot0/pbpartial/PartialDynamicSchema.java:45-50 | if the source's wildcard over a type finishes, the corrected expansion of that type never re-enters it |
| AsWritten.AsWrittenLeafIrrelevant | src/main/java/com/github/fqroot0/pbpartial/PartialDynamicSchema.java:45-50 | the source's wildcard expansion does not depend on the selector's own name |
| AsWritten.AsWrittenAgrees | src/main/java/com/github/fqroot0/pbpartial/PartialDynamicSchema.java:44-119 | whenever the source finishes, the corrected pruner returns the same result up to the enum-valued map entries and never a cycle error |
| AsWritten.MessageMono | src/main/java/com/github/fqroot0/pbpartial/PartialDynamicSchema.java:44-102 | once the source's recursion finishes, more fuel gives the same result |
| AsWritten.MessageFinishes | src/main/java/com/github/fqroot0/pbpartial/PartialDynamicSchema.java:44-102 | when the corrected pruner reports no cycle, the source's recursion from the same call finishes for some fuel |
| AsWritten.CycleExactlyWhereSourceDiverges | src/main/java/com/github/fqroot0/pbpartial/PartialDynamicSchema.java:84-93 | the corrected pruner reports a cycle exactly when the source's recursion finishes for no fuel |
| AsWritten.EraseIdentity | src/main/java/com/github/fqroot0/pbpartial/PartialDynamicSchema.java:110-117 | a definition that nests no enum-valued map entry is the same as the source would write it |
| AsWritten.AsWrittenEqualsCorrected | src/main/java/com/github/fqroot0/pbpartial/PartialDynamicSchema.java:44-119 | whenever the source finishes and no enum-valued map entry is reached, the source and the corrected pruner return the identical result |
| AsWritten.NodeWildcardDiverges | src/main/java/com/github/fqroot0/pbpartial/PartialDynamicSchema.java:45-50 | as written, a wildcard over `message Node { Node next = 1; }` does not finish for any fuel |
| AsWritten.NodeWildcardIsCyclic | src/main/java/com/github/fqroot0/pbpartial/PartialDynamicSchema.java:84-93 | corrected, the same call ends with `CyclicSchema("Node")` |
| AsWritten.EnumMapDangles | src/main/java/com/github/fqroot0/pbpartial/PartialDynamicSchema.java:110-117 | as written, a `map<string, Color>` field gives a map entry whose value has type `enum`, and the result breaks the scope rules |
| AsWritten.EnumMapNestsEnum | src/main/java/com/github/fqroot0/pbpartial/PartialDynamicSchema.java:104-119 | corrected, the value has type `Color`, the `Color` definition is nested in the map entry, and the result is well scoped |

## Left out

- The parser itself, `DiscardUnknownFieldsParser` and `DynamicMessage` (PartialDynamicSchema.java:147-149). This is protobuf runtime decoding. `GetPartialParser` returns the partial definition the parser would be built from.
- `schemaBuilder.build()` and the wrapping of `DescriptorValidationException` (PartialDynamicSchema.java:37-41). Compilation belongs to the external schema library. `WellScoped` stands for what that compilation needs of the definition.
- `setSyntax`: the syntax name is a plain string parameter. The schema is not linked to a descriptor file.
- The text of `String.valueOf(getDefaultValue())` (PartialDynamicSchema.java:71). A default is an opaque string copied from the descriptor.
- Floating point: `float` and `double` are scalar type tags with no numeric meaning.
- `StringUtils.split` is specified, not transcribed. It splits on `.` and drops empty tokens. A null path list or a null path is not modelled.
- HashMap iteration order (Field.java:31-33). `GetSubFields` returns the children in an order the model leaves open. Properties of an explicit selection are stated as sets of names; the one sequence property follows whatever order `GetSubFields` chose.
- `Field.toString` and the private `getSubField`. They take no part in parsing or pruning.
- The test file `PartialDynamicSchemaTest.java`. It depends on generated classes that are not part of this model and only logs output.
- `getLabel`'s `default` branch, which throws `IllegalStateException`: the descriptor label has exactly three values, so the branch cannot be reached.
- Type identity: types are keyed by simple name, as `containsMessage` and `containsEnum` compare them. Two types with the same simple name in different packages cannot be expressed.
- Group fields (`Type.GROUP`), and maps whose value is another map's entry type, are outside `ValidPool`; protobuf has no maps of maps.
- The exceptions are modelled as error values. `IllegalArgumentException` for a missing field becomes `FieldNotFound`. The stack overflow on a cyclic wildcard becomes `CyclicSchema` in the corrected model; see Findings. `AsWritten.CycleExactlyWhereSourceDiverges` shows that `CyclicSchema` arises exactly where the source does not finish.
- SelectionTree.Field.Contains: states the equivalence for nodes whose children are keyed by their own names, which every node of a parsed tree is (`Linked`). For an arbitrary node it says nothing.
- AsWritten.ToMessageDefAsWritten: `fuel` counts nested `toMessageDef` frames. Running out stands for the source's unbounded recursion, not for any limit the source has.

## Findings

| source | as written | input that shows it | evidently intended | confidence | as-written member | corrected member |
|---|---|---|---|---|---|---|
| src/main/java/com/github/fqroot0/pbpartial/PartialDynamicSchema.java:45-50 | a wildcard recurses into every message field with a fresh leaf selector and nothing guards against re-entry | `message Node { Node next = 1; }` with no path selected: `toMessageDef` calls itself on `Node` without end | an error rather than unbounded recursion, as a self-referential message cannot be flattened into nested definitions | not executed | AsWritten.NodeWildcardDiverges | AsWritten.NodeWildcardIsCyclic |
| src/main/java/com/github/fqroot0/pbpartial/PartialDynamicSchema.java:110-117 | for a map value that is not a message, the value type is `getType().name().toLowerCase()`, which is `enum` for an enum, and no enum definition is nested | `enum Color { RED = 0; } message Holder { map<string, Color> tags = 1; }` with `tags` selected | the value typed by the enum's name, with the enum's definition nested in the map entry, as `toMessageDef` does for enum fields | not executed | AsWritten.EnumMapDangles | AsWritten.EnumMapNestsEnum |
