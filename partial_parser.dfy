/**
 * The entry points: `toDynamicSchema` wraps the pruned definition of the root
 * message in a schema, and `getPartialParser` parses the selection paths into
 * a tree rooted at the message's own name, prunes, and looks the partial
 * definition up again under that name.
 */
module PartialParser {
  import opened Wrappers
  import opened Descriptors
  import opened Definitions
  import opened SelectionTree
  import opened PartialDynamicSchema
  import opened PrunerProperties

  /** What the schema builder is given: the file's syntax and the top-level message definitions. */
  datatype DynamicSchema = DynamicSchema(syntax: string, messages: seq<MessageDef>)

  /** `getMessageDescriptor`: the first top-level definition of that name, if any. */
  function FindMessageDef(defs: seq<MessageDef>, n: string): (r: Option<MessageDef>)
    ensures r.Some? ==> r.value in defs && r.value.name == n
    ensures r.None? ==> forall j :: 0 <= j < |defs| ==> defs[j].name != n
  {
    if defs == [] then None
    else if defs[0].name == n then Some(defs[0])
    else FindMessageDef(defs[1..], n)
  }

  /**
   * `toDynamicSchema`: a schema of the descriptor file's syntax holding the one
   * pruned definition of `t`, which a lookup under the descriptor's name finds.
   */
  function ToDynamicSchema(pool: Pool, t: string, syntax: string, sel: Selector): (r: Result<DynamicSchema, PruneError>)
    requires ValidPool(pool) && t in pool.messages
    ensures r.Ok? <==> ToMessageDef(pool, t, sel, {}).Ok?
    ensures r.Err? ==> r.error == ToMessageDef(pool, t, sel, {}).error
    ensures r.Ok? ==> r.value.syntax == syntax && |r.value.messages| == 1
    ensures r.Ok? ==> FindMessageDef(r.value.messages, pool.messages[t].name) == Some(ToMessageDef(pool, t, sel, {}).value)
  {
    match ToMessageDef(pool, t, sel, {})
    case Err(e) => Err(e)
    case Ok(messageDef) => Ok(DynamicSchema(syntax, [messageDef]))
  }

  /** What the pruner keeps of `t` when the selector picks the paths' first segments. */
  lemma PrunesToFirstSegments(pool: Pool, t: string, paths: seq<string>, sel: Selector)
    requires ValidPool(pool) && t in pool.messages && SelectsFirstSegments(sel, paths)
    ensures (forall j :: 0 <= j < |paths| ==> Split(paths[j]) == []) && ToMessageDef(pool, t, sel, {}).Ok? ==>
              ToMessageDef(pool, t, sel, {}).value.fields == Entries(pool.messages[t].fields)
    ensures (exists j :: 0 <= j < |paths| && Split(paths[j]) != []) && ToMessageDef(pool, t, sel, {}).Ok? ==>
              forall n :: n in EntryNames(ToMessageDef(pool, t, sel, {}).value.fields) <==>
                exists j :: 0 <= j < |paths| && Split(paths[j]) != [] && Split(paths[j])[0] == n
    ensures (exists j :: 0 <= j < |paths| && Split(paths[j]) != []
                           && FindField(pool.messages[t].fields, Split(paths[j])[0]).None?) ==>
              ToMessageDef(pool, t, sel, {}).Err?
  {
    if sel.subFields == [] {
      WildcardKeepsEveryField(pool, t, sel, {});
    } else {
      ExplicitKeepsSelected(pool, t, sel, {});
      forall j | 0 <= j < |paths| && Split(paths[j]) != []
        ensures FindField(pool.messages[t].fields, Split(paths[j])[0]).None? ==> ToMessageDef(pool, t, sel, {}).Err?
      {
        assert Split(paths[j])[0] in SelectorNames(sel.subFields);
        var q :| 0 <= q < |sel.subFields| && SelectorNames(sel.subFields)[q] == Split(paths[j])[0];
        assert sel.subFields[q].name == Split(paths[j])[0];
      }
    }
  }

  /**
   * `m` is the partial definition for the paths through the field `n` of `t`:
   * the message type of that field, with every field when no path goes below
   * `n`, and otherwise exactly the fields named by the segments after `n`.
   */
  ghost predicate PrunedAlongPaths(pool: Pool, t: string, paths: seq<string>, n: string, m: MessageDef)
    requires t in pool.messages
  {
    && FindField(pool.messages[t].fields, n).Some?
    && FindField(pool.messages[t].fields, n).value.kind == MessageField(m.name)
    && m.name in pool.messages
    && ((forall q :: 0 <= q < |paths| ==> !Below(Split(paths[q]), n)) ==>
          m.fields == Entries(pool.messages[m.name].fields))
    && ((exists q :: 0 <= q < |paths| && Below(Split(paths[q]), n)) ==>
          forall x :: x in EntryNames(m.fields) <==>
            exists q :: 0 <= q < |paths| && Below(Split(paths[q]), n) && Split(paths[q])[1] == x)
  }

  /** The fields a sub-selector of the root keeps of its message type, read along the paths. */
  lemma ChildAlongPaths(pool: Pool, mt: string, paths: seq<string>, sub: Selector, m: MessageDef)
    requires ValidPool(pool) && mt in pool.messages && SelectsSecondSegments(sub, paths)
    requires ToMessageDef(pool, mt, sub, {}) == Ok(m)
    ensures (forall q :: 0 <= q < |paths| ==> !Below(Split(paths[q]), sub.name)) ==>
              m.fields == Entries(pool.messages[mt].fields)
    ensures (exists q :: 0 <= q < |paths| && Below(Split(paths[q]), sub.name)) ==>
              forall x :: x in EntryNames(m.fields) <==>
                exists q :: 0 <= q < |paths| && Below(Split(paths[q]), sub.name) && Split(paths[q])[1] == x
  {
    if sub.subFields == [] {
      WildcardKeepsEveryField(pool, mt, sub, {});
    } else {
      ExplicitKeepsSelected(pool, mt, sub, {});
    }
  }

  /** A path whose first segment is the name of the `j`-th sub-selector. */
  lemma PathOfSelected(sel: Selector, paths: seq<string>, j: int) returns (q: int)
    requires SelectsFirstSegments(sel, paths) && 0 <= j < |sel.subFields|
    ensures 0 <= q < |paths| && Split(paths[q]) != [] && Split(paths[q])[0] == sel.subFields[j].name
  {
    assert SelectorNames(sel.subFields)[j] == sel.subFields[j].name;
    assert sel.subFields[j].name in SelectorNames(sel.subFields);
    q :| 0 <= q < |paths| && Split(paths[q]) != [] && Split(paths[q])[0] == sel.subFields[j].name;
  }

  /** One nested message of an explicit selection, read along the paths. */
  lemma NestedAlongPathsAt(pool: Pool, t: string, paths: seq<string>, sel: Selector, m: MessageDef)
    requires ValidPool(pool) && t in pool.messages && SelectsFirstSegments(sel, paths) && sel.subFields != []
    requires forall j :: 0 <= j < |sel.subFields| ==> SelectsSecondSegments(sel.subFields[j], paths)
    requires ToMessageDef(pool, t, sel, {}).Ok? && m in ToMessageDef(pool, t, sel, {}).value.messages && !m.mapEntry
    ensures exists j :: 0 <= j < |paths| && Split(paths[j]) != [] && PrunedAlongPaths(pool, t, paths, Split(paths[j])[0], m)
  {
    var j := NestedSource(pool, t, sel, {}, m);
    NestedForShape(pool, t, sel, {}, j, m);
    var sub := sel.subFields[j];
    var f := FindField(pool.messages[t].fields, sub.name).value;
    assert f.kind == MessageField(m.name);
    ChildAlongPaths(pool, m.name, paths, sub, m);
    var q := PathOfSelected(sel, paths, j);
    assert PrunedAlongPaths(pool, t, paths, Split(paths[q])[0], m);
  }

  /** Under a wildcard root every nested message keeps all the fields of its type. */
  lemma NestedUnderWildcard(pool: Pool, t: string, sel: Selector, m: MessageDef)
    requires ValidPool(pool) && t in pool.messages && sel.subFields == []
    requires ToMessageDef(pool, t, sel, {}).Ok? && m in ToMessageDef(pool, t, sel, {}).value.messages && !m.mapEntry
    ensures m.name in pool.messages && m.fields == Entries(pool.messages[m.name].fields)
  {
    var j := NestedSource(pool, t, sel, {}, m);
    NestedForShape(pool, t, sel, {}, j, m);
    var sub := Subs(pool.messages[t], sel)[j];
    var f := FindField(pool.messages[t].fields, sub.name).value;
    assert f.kind == MessageField(m.name);
    assert {} + {m.name} == {m.name};
    assert sub.subFields == [];
    assert ToMessageDef(pool, m.name, sub, {m.name}) == Ok(m);
    WildcardKeepsEveryField(pool, m.name, sub, {m.name});
  }

  /** Every message-typed field a path starts with has its message type nested. */
  lemma FirstSegmentTypesNested(pool: Pool, t: string, paths: seq<string>, sel: Selector, j: int)
    requires ValidPool(pool) && t in pool.messages && SelectsFirstSegments(sel, paths)
    requires ToMessageDef(pool, t, sel, {}).Ok? && 0 <= j < |paths| && Split(paths[j]) != []
    requires FindField(pool.messages[t].fields, Split(paths[j])[0]).Some?
    ensures FindField(pool.messages[t].fields, Split(paths[j])[0]).value.kind.MessageField? ==>
              ContainsMessage(ToMessageDef(pool, t, sel, {}).value, FindField(pool.messages[t].fields, Split(paths[j])[0]).value.kind.typeName)
  {
    var desc := pool.messages[t];
    var f := FindField(desc.fields, Split(paths[j])[0]).value;
    var d := ToMessageDef(pool, t, sel, {}).value;
    assert Split(paths[j])[0] in SelectorNames(sel.subFields);
    var q :| 0 <= q < |sel.subFields| && SelectorNames(sel.subFields)[q] == Split(paths[j])[0];
    SelectMatches(desc.fields, sel.subFields);
    assert Select(desc.fields, sel.subFields).value[q] == f;
    NestedDefinitionsMatch(pool, t, sel, {});
    assert DefinesReference(pool, d, f);
    if f.kind.MessageField? {
      ReferencedMessageContained(pool, d, f);
    }
  }

  /** A message reference that is defined is nested by name. */
  lemma ReferencedMessageContained(pool: Pool, d: MessageDef, f: FieldDesc)
    requires DefinesReference(pool, d, f) && f.kind.MessageField?
    ensures ContainsMessage(d, f.kind.typeName)
  {
    var m :| m in d.messages && m.name == f.kind.typeName && !m.mapEntry;
    var k :| 0 <= k < |d.messages| && d.messages[k] == m;
  }

  /**
   * Below the root: with no non-empty path every nested message keeps all its
   * fields; otherwise each nested message is the type of a field some path
   * starts with, pruned to that path's next segments, and each such field's
   * type is nested.
   */
  lemma NestedAlongPaths(pool: Pool, t: string, paths: seq<string>, sel: Selector)
    requires ValidPool(pool) && t in pool.messages && SelectsFirstSegments(sel, paths)
    requires forall j :: 0 <= j < |sel.subFields| ==> SelectsSecondSegments(sel.subFields[j], paths)
    ensures (forall j :: 0 <= j < |paths| ==> Split(paths[j]) == []) && ToMessageDef(pool, t, sel, {}).Ok? ==>
              forall m :: m in ToMessageDef(pool, t, sel, {}).value.messages && !m.mapEntry ==>
                m.name in pool.messages && m.fields == Entries(pool.messages[m.name].fields)
    ensures (exists j :: 0 <= j < |paths| && Split(paths[j]) != []) && ToMessageDef(pool, t, sel, {}).Ok? ==>
              forall m :: m in ToMessageDef(pool, t, sel, {}).value.messages && !m.mapEntry ==>
                exists j :: 0 <= j < |paths| && Split(paths[j]) != [] && PrunedAlongPaths(pool, t, paths, Split(paths[j])[0], m)
    ensures ToMessageDef(pool, t, sel, {}).Ok? ==>
              forall j :: 0 <= j < |paths| && Split(paths[j]) != [] && FindField(pool.messages[t].fields, Split(paths[j])[0]).Some?
                          && FindField(pool.messages[t].fields, Split(paths[j])[0]).value.kind.MessageField? ==>
                ContainsMessage(ToMessageDef(pool, t, sel, {}).value, FindField(pool.messages[t].fields, Split(paths[j])[0]).value.kind.typeName)
  {
    var r := ToMessageDef(pool, t, sel, {});
    if r.Ok? {
      if sel.subFields == [] {
        forall m | m in r.value.messages && !m.mapEntry
          ensures m.name in pool.messages && m.fields == Entries(pool.messages[m.name].fields)
        {
          NestedUnderWildcard(pool, t, sel, m);
        }
      } else {
        forall m | m in r.value.messages && !m.mapEntry
          ensures exists j :: 0 <= j < |paths| && Split(paths[j]) != [] && PrunedAlongPaths(pool, t, paths, Split(paths[j])[0], m)
        {
          NestedAlongPathsAt(pool, t, paths, sel, m);
        }
      }
      forall j | 0 <= j < |paths| && Split(paths[j]) != [] && FindField(pool.messages[t].fields, Split(paths[j])[0]).Some?
        ensures FindField(pool.messages[t].fields, Split(paths[j])[0]).value.kind.MessageField? ==>
                  ContainsMessage(r.value, FindField(pool.messages[t].fields, Split(paths[j])[0]).value.kind.typeName)
      {
        FirstSegmentTypesNested(pool, t, paths, sel, j);
      }
    }
  }

  /**
   * Each segment of `segs` names a field of the message reached so far,
   * descending through message fields; below any other field the rest of the
   * path is not looked at.
   */
  ghost predicate PathResolves(pool: Pool, t: string, segs: seq<string>)
    requires ValidPool(pool) && t in pool.messages
    decreases |segs|
  {
    segs != [] ==>
      match FindField(pool.messages[t].fields, segs[0])
      case None => false
      case Some(f) => f.kind.MessageField? ==> f.kind.typeName in pool.messages && PathResolves(pool, f.kind.typeName, segs[1..])
  }

  /** A prefix of a path that resolves resolves. */
  lemma {:induction false} PathResolvesPrefix(pool: Pool, t: string, segs: seq<string>, k: int)
    requires ValidPool(pool) && t in pool.messages && PathResolves(pool, t, segs) && 0 <= k <= |segs|
    ensures PathResolves(pool, t, segs[..k])
    decreases k
  {
    if k > 0 {
      var f := FindField(pool.messages[t].fields, segs[0]).value;
      assert segs[..k][0] == segs[0];
      if f.kind.MessageField? {
        PathResolvesPrefix(pool, f.kind.typeName, segs[1..], k - 1);
        assert segs[..k][1..] == segs[1..][..k - 1];
      }
    }
  }

  /** Every node path of the tree that extends `base` resolves, read from `base` on, in message type `t`. */
  ghost predicate ResolvesBelow(pool: Pool, t: string, pathOf: map<Field, seq<string>>, base: seq<string>)
    requires ValidPool(pool) && t in pool.messages
  {
    forall q :: q in pathOf.Values && |base| <= |q| && q[..|base|] == base ==> PathResolves(pool, t, q[|base|..])
  }

  /** The selector of a subtree whose paths all resolve in `t` resolves in `t`. */
  lemma {:induction false} DescribedResolvable(pool: Pool, t: string, s: Selector, n: Field, pathOf: map<Field, seq<string>>)
    requires ValidPool(pool) && t in pool.messages && Linked(pathOf) && Describes(s, n, pathOf)
    requires ResolvesBelow(pool, t, pathOf, pathOf[n])
    ensures Resolvable(pool, t, s)
    decreases s, 1
  {
    forall j | 0 <= j < |s.subFields|
      ensures ChildResolvable(pool, t, s, j)
    {
      ChildDescribedResolvable(pool, t, s, n, pathOf, j);
    }
  }

  lemma {:induction false} ChildDescribedResolvable(pool: Pool, t: string, s: Selector, n: Field, pathOf: map<Field, seq<string>>, j: int)
    requires ValidPool(pool) && t in pool.messages && Linked(pathOf) && Describes(s, n, pathOf)
    requires ResolvesBelow(pool, t, pathOf, pathOf[n]) && 0 <= j < |s.subFields|
    ensures ChildResolvable(pool, t, s, j)
    decreases s, 0
  {
    var x := s.subFields[j].name;
    var c := n.subFields[x];
    var base := pathOf[n];
    assert Describes(s.subFields[j], c, pathOf);
    assert pathOf[c] == base + [x];
    assert pathOf[c] in pathOf.Values;
    assert pathOf[c][..|base|] == base && pathOf[c][|base|..] == [x];
    assert PathResolves(pool, t, [x]);
    var f := FindField(pool.messages[t].fields, x).value;
    if f.kind.MessageField? {
      var mt := f.kind.typeName;
      forall q | q in pathOf.Values && |pathOf[c]| <= |q| && q[..|pathOf[c]|] == pathOf[c]
        ensures PathResolves(pool, mt, q[|pathOf[c]|..])
      {
        assert q[..|base|] == base;
        var rest := q[|base|..];
        assert rest[0] == x && rest[1..] == q[|pathOf[c]|..];
      }
      DescribedResolvable(pool, mt, s.subFields[j], c, pathOf);
    }
  }

  /** The selector of a parsed tree resolves when every selection path does. */
  lemma ParsedResolvable(pool: Pool, t: string, root: Field, pathOf: map<Field, seq<string>>, paths: seq<string>, sel: Selector)
    requires ValidPool(pool) && t in pool.messages
    requires IsTree(root, pathOf) && pathOf.Values == PathsOf(paths) && Describes(sel, root, pathOf)
    requires forall j :: 0 <= j < |paths| ==> PathResolves(pool, t, Split(paths[j]))
    ensures Resolvable(pool, t, sel)
  {
    forall q | q in pathOf.Values
      ensures PathResolves(pool, t, q)
    {
      PathsOfMembers(paths, q);
      if q != [] {
        var j :| 0 <= j < |paths| && q in Prefixes(Split(paths[j]));
        var k :| 0 <= k <= |Split(paths[j])| && q == Split(paths[j])[..k];
        PathResolvesPrefix(pool, t, Split(paths[j]), k);
      }
    }
    assert forall q :: q in pathOf.Values ==> q[..0] == [] && q[0..] == q;
    DescribedResolvable(pool, t, sel, root, pathOf);
  }

  /**
   * `getPartialParser`: the partial definition of message type `t` for the
   * selection `paths`. It is named after the descriptor, keeps the scope rules
   * and agrees with the source. With no non-empty path it keeps every field;
   * otherwise it keeps exactly the fields named by the paths' first segments,
   * and fails when one of those names no field; a missing-field error names
   * a message type of the pool that lacks the name. When every path resolves
   * it never fails with a missing field, and on an acyclic schema it then
   * succeeds; on an acyclic schema it never reports a cycle. One level down, each nested message is the type of a
   * field some path starts with, keeping the fields the paths name next, or
   * all of them where no path goes further.
   */
  method GetPartialParser(pool: Pool, t: string, syntax: string, paths: seq<string>)
    returns (r: Result<MessageDef, PruneError>)
    requires ValidPool(pool) && t in pool.messages
    ensures r.Ok? ==> r.value.name == t && Sound(pool, r.value)
    ensures (forall j :: 0 <= j < |paths| ==> Split(paths[j]) == []) && r.Ok? ==>
              r.value.fields == Entries(pool.messages[t].fields)
    ensures (exists j :: 0 <= j < |paths| && Split(paths[j]) != []) && r.Ok? ==>
              forall n :: n in EntryNames(r.value.fields) <==>
                exists j :: 0 <= j < |paths| && Split(paths[j]) != [] && Split(paths[j])[0] == n
    ensures (exists j :: 0 <= j < |paths| && Split(paths[j]) != []
                           && FindField(pool.messages[t].fields, Split(paths[j])[0]).None?) ==> r.Err?
    ensures forall rank :: Ranked(pool, rank) ==> !(r.Err? && r.error.CyclicSchema?)
    ensures r.Err? ==> ReportsMissing(pool, r.error)
    ensures (forall j :: 0 <= j < |paths| ==> PathResolves(pool, t, Split(paths[j]))) ==> !(r.Err? && r.error.FieldNotFound?)
    ensures (forall j :: 0 <= j < |paths| ==> PathResolves(pool, t, Split(paths[j]))) ==>
              forall rank :: Ranked(pool, rank) ==> r.Ok?
    ensures (forall j :: 0 <= j < |paths| ==> Split(paths[j]) == []) ==> forall rank :: Ranked(pool, rank) ==> r.Ok?
    ensures (forall j :: 0 <= j < |paths| ==> Split(paths[j]) == []) && r.Ok? ==>
              forall m :: m in r.value.messages && !m.mapEntry ==>
                m.name in pool.messages && m.fields == Entries(pool.messages[m.name].fields)
    ensures (exists j :: 0 <= j < |paths| && Split(paths[j]) != []) && r.Ok? ==>
              forall m :: m in r.value.messages && !m.mapEntry ==>
                exists j :: 0 <= j < |paths| && Split(paths[j]) != [] && PrunedAlongPaths(pool, t, paths, Split(paths[j])[0], m)
    ensures r.Ok? ==>
              forall j :: 0 <= j < |paths| && Split(paths[j]) != [] && FindField(pool.messages[t].fields, Split(paths[j])[0]).Some?
                          && FindField(pool.messages[t].fields, Split(paths[j])[0]).value.kind.MessageField? ==>
                ContainsMessage(r.value, FindField(pool.messages[t].fields, Split(paths[j])[0]).value.kind.typeName)
  {
    var desc := pool.messages[t];
    var root, pathOf := Field.Parse(desc.name, paths);
    var sel := root.ToSelector(pathOf);
    var schema := ToDynamicSchema(pool, t, syntax, sel);
    if schema.Err? {
      r := Err(schema.error);
    } else {
      var found := FindMessageDef(schema.value.messages, desc.name);
      r := Ok(found.value);
    }
    MessageDefSound(pool, t, sel, {});
    forall rank | Ranked(pool, rank)
      ensures !(r.Err? && r.error.CyclicSchema?)
    {
      AcyclicNeverCyclic(pool, rank, t, sel);
    }
    if forall j :: 0 <= j < |paths| ==> PathResolves(pool, t, Split(paths[j])) {
      ParsedResolvable(pool, t, root, pathOf, paths, sel);
      ResolvableNeverMissing(pool, t, sel, {});
    }
    ParsedSelector(root, pathOf, paths, sel);
    PrunesToFirstSegments(pool, t, paths, sel);
    forall j | 0 <= j < |sel.subFields|
      ensures SelectsSecondSegments(sel.subFields[j], paths)
    {
      ParsedSecondSegments(root, pathOf, paths, sel, j);
    }
    NestedAlongPaths(pool, t, paths, sel);
  }

  // ---------------------------------------------------------------------------
  // `message Person { string name = 1; int32 id = 2; }` inside
  // `message AddressBook { repeated Person people = 1; }`, selected as
  // `people.name`.
  // ---------------------------------------------------------------------------

  function AddressBookPool(): (p: Pool)
    ensures ValidPool(p) && "AddressBook" in p.messages && "Person" in p.messages
  {
    Pool(map["Person" := MessageDesc("Person", [FieldDesc("name", 1, LabelOptional, Scalar(String, "")),
                                               FieldDesc("id", 2, LabelOptional, Scalar(Int32, "0"))], false),
             "AddressBook" := MessageDesc("AddressBook", [FieldDesc("people", 1, LabelRepeated, MessageField("Person"))], false)],
         map[])
  }

  lemma SplitPeopleName()
    ensures Split("people.name") == ["people", "name"]
  {
    assert Join(["people", "name"]) == "people.name";
    SplitJoin(["people", "name"]);
  }

  /** `people.name` names a field of `AddressBook`, then one of `Person`. */
  lemma PeopleNameResolves()
    ensures PathResolves(AddressBookPool(), "AddressBook", ["people", "name"])
  {
    var pool := AddressBookPool();
    assert FindField(pool.messages["AddressBook"].fields, "people") == Some(pool.messages["AddressBook"].fields[0]);
    assert FindField(pool.messages["Person"].fields, "name").Some?;
    assert ["people", "name"][1..] == ["name"] && ["name"][1..] == [];
  }

  /** `Person` contains no message, so the schema is acyclic. */
  lemma AddressBookRanked() returns (rank: map<string, nat>)
    ensures Ranked(AddressBookPool(), rank)
  {
    var pool := AddressBookPool();
    rank := map["Person" := 0, "AddressBook" := 1];
    assert RankedFields(pool, rank, "Person");
    assert RankedFields(pool, rank, "AddressBook");
  }

  /** A nested message pruned along `people.name` is `Person` with `name` alone. */
  lemma PeopleNested(m: MessageDef)
    requires exists j :: 0 <= j < |["people.name"]| && Split(["people.name"][j]) != []
                         && PrunedAlongPaths(AddressBookPool(), "AddressBook", ["people.name"], Split(["people.name"][j])[0], m)
    ensures m.name == "Person" && forall x :: x in EntryNames(m.fields) <==> x == "name"
  {
    var pool := AddressBookPool();
    var paths := ["people.name"];
    SplitPeopleName();
    assert Split(paths[0]) == ["people", "name"] && Below(Split(paths[0]), "people");
    assert FindField(pool.messages["AddressBook"].fields, "people") == Some(pool.messages["AddressBook"].fields[0]);
    assert PrunedAlongPaths(pool, "AddressBook", paths, "people", m);
  }

  /** The partial definition keeps `people` alone, and the nested `Person` keeps `name` alone. */
  method PeopleName() returns (r: Result<MessageDef, PruneError>)
    ensures r.Ok? && r.value.name == "AddressBook"
    ensures forall n :: n in EntryNames(r.value.fields) <==> n == "people"
    ensures ContainsMessage(r.value, "Person")
    ensures forall m :: m in r.value.messages && !m.mapEntry ==>
              m.name == "Person" && forall x :: x in EntryNames(m.fields) <==> x == "name"
  {
    var pool := AddressBookPool();
    var paths := ["people.name"];
    SplitPeopleName();
    PeopleNameResolves();
    var rank := AddressBookRanked();
    assert Split(paths[0]) == ["people", "name"];
    assert Below(Split(paths[0]), "people");
    assert FindField(pool.messages["AddressBook"].fields, "people") == Some(pool.messages["AddressBook"].fields[0]);
    r := GetPartialParser(pool, "AddressBook", "proto3", paths);
    forall m | m in r.value.messages && !m.mapEntry
      ensures m.name == "Person" && forall x :: x in EntryNames(m.fields) <==> x == "name"
    {
      PeopleNested(m);
    }
  }
}
