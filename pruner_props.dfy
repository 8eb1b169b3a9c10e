/**
 * What the pruner promises about the definitions it emits: they obey the
 * scope rules the schema compiler needs, they agree with the descriptors they
 * were taken from, a wildcard keeps every field and an explicit selection
 * exactly the selected ones, a missing name fails, and an acyclic schema
 * never trips the cycle guard.
 */
module PrunerProperties {
  import opened Wrappers
  import opened Descriptors
  import opened Definitions
  import opened SelectionTree
  import opened PartialDynamicSchema

  /** A definition that keeps the scope rules and agrees with the source at every level. */
  ghost predicate Sound(pool: Pool, d: MessageDef)
  {
    WellScoped(d) && Faithful(pool, d)
  }

  // ---------------------------------------------------------------------------
  // The three builder steps keep a definition sound.
  // ---------------------------------------------------------------------------

  /** Adding the entry of a source field whose referenced type is already nested keeps `d` sound. */
  lemma AddEntrySound(pool: Pool, d: MessageDef, e: FieldEntry)
    requires Sound(pool, d) && !d.mapEntry && d.name in pool.messages
    requires FieldEntryFaithful(pool.messages[d.name], e)
    requires ReferenceNested(d, FindField(pool.messages[d.name].fields, e.name).value)
    ensures Sound(pool, AddEntry(d, e))
  {
    var d' := AddEntry(d, e);
    var f := FindField(pool.messages[d.name].fields, e.name).value;
    if f.kind.Scalar? {
      ScalarNameRoundTrip(f.kind.scalar);
    }
    assert Resolves(d, e);
    assert forall x :: x in d'.fields ==> x in d.fields || x == e;
    assert LevelScoped(d');
    assert LevelFaithful(pool, d');
  }

  /** Adding a source enum not yet nested keeps `d` sound, and afterwards it is nested. */
  lemma AddEnumSound(pool: Pool, d: MessageDef, ed: EnumDef)
    requires Sound(pool, d) && !ContainsEnum(d, ed.name)
    requires ed.name in pool.enums && ed.values == pool.enums[ed.name].values
    ensures Sound(pool, AddEnumDef(d, ed)) && ContainsEnum(AddEnumDef(d, ed), ed.name)
  {
    var d' := AddEnumDef(d, ed);
    assert d'.enums[|d.enums|] == ed;
    forall n | ContainsEnum(d, n)
      ensures ContainsEnum(d', n)
    {
      var k :| 0 <= k < |d.enums| && d.enums[k].name == n;
      assert d'.enums[k] == d.enums[k];
    }
    forall k | 0 <= k < |d'.enums|
      ensures d'.enums[k].name in pool.enums && d'.enums[k].values == pool.enums[d'.enums[k].name].values
    {
      if k < |d.enums| {
        assert d'.enums[k] == d.enums[k];
      }
    }
    assert LevelScoped(d');
    assert LevelFaithful(pool, d');
  }

  /** Adding a sound nested definition of a name not yet nested keeps `d` sound. */
  lemma AddMessageSound(pool: Pool, d: MessageDef, md: MessageDef)
    requires Sound(pool, d) && Sound(pool, md) && !ContainsMessage(d, md.name)
    requires md.name in pool.messages && md.mapEntry == pool.messages[md.name].mapEntry
    ensures Sound(pool, AddMessageDef(d, md)) && ContainsMessage(AddMessageDef(d, md), md.name)
  {
    var d' := AddMessageDef(d, md);
    assert d'.messages[|d.messages|] == md;
    forall n | ContainsMessage(d, n)
      ensures ContainsMessage(d', n)
    {
      var k :| 0 <= k < |d.messages| && d.messages[k].name == n;
      assert d'.messages[k] == d.messages[k];
    }
    assert forall m :: m in d'.messages ==> m in d.messages || m == md;
    assert LevelScoped(d');
    assert LevelFaithful(pool, d');
  }

  // ---------------------------------------------------------------------------
  // Every definition the pruner emits is sound.
  // ---------------------------------------------------------------------------

  /** The pruned definition of a message type obeys the scope rules and agrees with the source. */
  lemma {:induction false} MessageDefSound(pool: Pool, t: string, sel: Selector, stack: set<string>)
    requires ValidPool(pool) && t in pool.messages
    ensures ToMessageDef(pool, t, sel, stack).Ok? ==> Sound(pool, ToMessageDef(pool, t, sel, stack).value)
    decreases Size(sel), pool.messages.Keys - stack, 2, 0
  {
    var acc := MessageDef(pool.messages[t].name, [], [], [], false);
    assert Sound(pool, acc);
    FieldsSound(pool, t, sel, 0, acc, stack);
  }

  lemma {:induction false} FieldsSound(pool: Pool, t: string, sel: Selector, i: nat, acc: MessageDef, stack: set<string>)
    requires ValidPool(pool) && t in pool.messages
    requires i <= |Subs(pool.messages[t], sel)|
    requires acc.name == t && !acc.mapEntry && Sound(pool, acc)
    ensures AddFields(pool, t, sel, i, acc, stack).Ok? ==> Sound(pool, AddFields(pool, t, sel, i, acc, stack).value)
    decreases Size(sel), pool.messages.Keys - stack, 1, |Subs(pool.messages[t], sel)| - i
  {
    if i < |Subs(pool.messages[t], sel)| {
      FieldSound(pool, t, sel, i, acc, stack);
      var r1 := AddField(pool, t, sel, i, acc, stack);
      if r1.Ok? {
        FieldsSound(pool, t, sel, i + 1, r1.value, stack);
      }
    }
  }

  lemma {:induction false} FieldSound(pool: Pool, t: string, sel: Selector, i: nat, acc: MessageDef, stack: set<string>)
    requires ValidPool(pool) && t in pool.messages
    requires i < |Subs(pool.messages[t], sel)|
    requires acc.name == t && !acc.mapEntry && Sound(pool, acc)
    ensures AddField(pool, t, sel, i, acc, stack).Ok? ==> Sound(pool, AddField(pool, t, sel, i, acc, stack).value)
    decreases Size(sel), pool.messages.Keys - stack, 1, |Subs(pool.messages[t], sel)| - i - 1
  {
    var desc := pool.messages[t];
    var sub := Subs(desc, sel)[i];
    var wildcard := sel.subFields == [];
    var r := AddField(pool, t, sel, i, acc, stack);
    if r.Ok? {
      var f := FindField(desc.fields, sub.name).value;
      assert f in desc.fields && ValidField(pool, f);
      var e := EntryOf(f);
      match f.kind
      case Scalar(_, _) =>
        AddEntrySound(pool, acc, e);
      case EnumField(et) =>
        if ContainsEnum(acc, et) {
          AddEntrySound(pool, acc, e);
        } else {
          var ed := ToEnumDef(pool.enums[et]);
          AddEnumSound(pool, acc, ed);
          AddEntrySound(pool, AddEnumDef(acc, ed), e);
        }
      case MessageField(mt) =>
        if ContainsMessage(acc, mt) {
          AddEntrySound(pool, acc, e);
        } else {
          SubSize(desc, sel, i);
          var inner := if wildcard then stack + {mt} else {};
          MessageDefSound(pool, mt, sub, inner);
          var nested := ToMessageDef(pool, mt, sub, inner).value;
          AddMessageSound(pool, acc, nested);
          AddEntrySound(pool, AddMessageDef(acc, nested), e);
        }
      case MapField(mt) =>
        if ContainsMessage(acc, mt) {
          AddEntrySound(pool, acc, e);
        } else {
          SubSize(desc, sel, i);
          var inner := if wildcard then stack else {};
          MapDefSound(pool, mt, inner);
          var mapDef := ToMapDef(pool, mt, inner).value;
          AddMessageSound(pool, acc, mapDef);
          AddEntrySound(pool, AddMessageDef(acc, mapDef), e);
        }
    }
  }

  /** The map-entry definition obeys the scope rules and agrees with the source. */
  lemma {:induction false} MapDefSound(pool: Pool, mt: string, stack: set<string>)
    requires ValidPool(pool) && mt in pool.messages && pool.messages[mt].mapEntry
    ensures ToMapDef(pool, mt, stack).Ok? ==> Sound(pool, ToMapDef(pool, mt, stack).value)
    decreases 1, pool.messages.Keys - stack, 0, 0
  {
    var entry := pool.messages[mt];
    var r := ToMapDef(pool, mt, stack);
    if r.Ok? {
      var d := r.value;
      var key := FindField(entry.fields, PbMapKeyName).value;
      var value := ValueField(entry);
      assert value in entry.fields && ValidField(pool, value);
      ScalarNameRoundTrip(key.kind.scalar);
      assert Resolves(d, d.fields[0]);
      if value.kind.MessageField? {
        var vt := value.kind.typeName;
        SizeOfLeaf(Selector(value.name, []));
        MessageDefSound(pool, vt, Selector(value.name, []), stack + {vt});
        assert d.messages[0] == ToMessageDef(pool, vt, Selector(value.name, []), stack + {vt}).value;
        assert Resolves(d, d.fields[1]);
      } else if value.kind.EnumField? {
        assert d.enums[0].name == d.fields[1].typeName;
        assert Resolves(d, d.fields[1]);
      } else {
        ScalarNameRoundTrip(value.kind.scalar);
        assert Resolves(d, d.fields[1]);
      }
      assert LevelScoped(d);
      assert LevelFaithful(pool, d);
    }
  }

  // ---------------------------------------------------------------------------
  // Which fields a definition keeps.
  // ---------------------------------------------------------------------------

  /** Selection takes, for each selector and in its order, the field of that name; it fails iff some name has none. */
  lemma {:induction false} SelectMatches(fields: seq<FieldDesc>, subs: seq<Selector>)
    ensures Select(fields, subs).Some? <==> forall j :: 0 <= j < |subs| ==> FindField(fields, subs[j].name).Some?
    ensures Select(fields, subs).Some? ==>
              && |Select(fields, subs).value| == |subs|
              && forall j :: 0 <= j < |subs| ==> Select(fields, subs).value[j] == FindField(fields, subs[j].name).value
    decreases |subs|
  {
    if subs != [] {
      SelectMatches(fields, subs[1..]);
      assert forall j :: 1 <= j < |subs| ==> subs[1..][j - 1] == subs[j];
    }
  }

  /** Selecting the wildcard leaves of a message with unique field names takes all its fields. */
  lemma {:induction false} SelectLeaves(fields: seq<FieldDesc>)
    requires DistinctFieldNames(fields)
    ensures Select(fields, Leaves(fields)) == Some(fields)
  {
    var subs := Leaves(fields);
    SelectMatches(fields, subs);
    forall j | 0 <= j < |subs|
      ensures FindField(fields, subs[j].name) == Some(fields[j])
    {
      FindFieldFindsEach(fields, j);
    }
    assert Select(fields, subs).value == fields;
  }

  /**
   * A wildcard keeps every field of the message, in declaration order, each as
   * the entry of that field: same name, number, label and type, and its default
   * when it is a non-repeated scalar.
   */
  lemma WildcardKeepsEveryField(pool: Pool, t: string, sel: Selector, stack: set<string>)
    requires ValidPool(pool) && t in pool.messages && sel.subFields == []
    ensures ToMessageDef(pool, t, sel, stack).Ok? ==>
              && ToMessageDef(pool, t, sel, stack).value.fields == Entries(pool.messages[t].fields)
              && EntryNames(ToMessageDef(pool, t, sel, stack).value.fields) == FieldNames(pool.messages[t].fields)
  {
    SelectLeaves(pool.messages[t].fields);
  }

  /**
   * An explicit selection keeps exactly the selected names, in selection order,
   * each as the entry of the field of that name; it fails iff one of the names
   * has no field in the message.
   */
  lemma ExplicitKeepsSelected(pool: Pool, t: string, sel: Selector, stack: set<string>)
    requires ValidPool(pool) && t in pool.messages && sel.subFields != []
    ensures ToMessageDef(pool, t, sel, stack).Ok? ==>
              && EntryNames(ToMessageDef(pool, t, sel, stack).value.fields) == SelectorNames(sel.subFields)
              && forall j :: 0 <= j < |sel.subFields| ==>
                   && FindField(pool.messages[t].fields, sel.subFields[j].name).Some?
                   && ToMessageDef(pool, t, sel, stack).value.fields[j]
                   == EntryOf(FindField(pool.messages[t].fields, sel.subFields[j].name).value)
    ensures (exists j :: 0 <= j < |sel.subFields| && FindField(pool.messages[t].fields, sel.subFields[j].name).None?) ==>
              ToMessageDef(pool, t, sel, stack).Err?
  {
    SelectMatches(pool.messages[t].fields, sel.subFields);
  }

  // ---------------------------------------------------------------------------
  // When the cycle guard can fire.
  // ---------------------------------------------------------------------------

  predicate IsCycleError(r: Result<MessageDef, PruneError>)
  {
    r.Err? && r.error.CyclicSchema?
  }

  /** Every message or map field of `t` points to a type of lower rank. */
  ghost predicate RankedFields(pool: Pool, rank: map<string, nat>, t: string)
    requires t in pool.messages && t in rank
  {
    forall f :: f in pool.messages[t].fields && (f.kind.MessageField? || f.kind.MapField?) ==>
      f.kind.typeName in rank && rank[f.kind.typeName] < rank[t]
  }

  /** A ranking of the message types witnessing that no message type contains itself. */
  ghost predicate Ranked(pool: Pool, rank: map<string, nat>)
  {
    forall t :: t in pool.messages ==> t in rank && RankedFields(pool, rank, t)
  }

  /** Every type still being expanded ranks at least as high as `t`. */
  ghost predicate StackAbove(rank: map<string, nat>, stack: set<string>, t: string)
    requires t in rank
  {
    forall s :: s in stack ==> s in rank && rank[t] <= rank[s]
  }

  /** On an acyclic schema the cycle guard never fires, whatever is selected. */
  lemma AcyclicNeverCyclic(pool: Pool, rank: map<string, nat>, t: string, sel: Selector)
    requires ValidPool(pool) && t in pool.messages && Ranked(pool, rank)
    ensures !IsCycleError(ToMessageDef(pool, t, sel, {}))
  {
    MessageNoCycle(pool, rank, t, sel, {});
  }

  lemma {:induction false} MessageNoCycle(pool: Pool, rank: map<string, nat>, t: string, sel: Selector, stack: set<string>)
    requires ValidPool(pool) && t in pool.messages && Ranked(pool, rank) && StackAbove(rank, stack, t)
    ensures !IsCycleError(ToMessageDef(pool, t, sel, stack))
    decreases Size(sel), pool.messages.Keys - stack, 2, 0
  {
    FieldsNoCycle(pool, rank, t, sel, 0, MessageDef(pool.messages[t].name, [], [], [], false), stack);
  }

  lemma {:induction false} FieldsNoCycle(pool: Pool, rank: map<string, nat>, t: string, sel: Selector, i: nat,
                                         acc: MessageDef, stack: set<string>)
    requires ValidPool(pool) && t in pool.messages && Ranked(pool, rank) && StackAbove(rank, stack, t)
    requires i <= |Subs(pool.messages[t], sel)|
    ensures !IsCycleError(AddFields(pool, t, sel, i, acc, stack))
    decreases Size(sel), pool.messages.Keys - stack, 1, |Subs(pool.messages[t], sel)| - i
  {
    if i < |Subs(pool.messages[t], sel)| {
      FieldNoCycle(pool, rank, t, sel, i, acc, stack);
      var r1 := AddField(pool, t, sel, i, acc, stack);
      if r1.Ok? {
        FieldsNoCycle(pool, rank, t, sel, i + 1, r1.value, stack);
      }
    }
  }

  lemma {:induction false} FieldNoCycle(pool: Pool, rank: map<string, nat>, t: string, sel: Selector, i: nat,
                                        acc: MessageDef, stack: set<string>)
    requires ValidPool(pool) && t in pool.messages && Ranked(pool, rank) && StackAbove(rank, stack, t)
    requires i < |Subs(pool.messages[t], sel)|
    ensures !IsCycleError(AddField(pool, t, sel, i, acc, stack))
    decreases Size(sel), pool.messages.Keys - stack, 1, |Subs(pool.messages[t], sel)| - i - 1
  {
    var desc := pool.messages[t];
    var sub := Subs(desc, sel)[i];
    var wildcard := sel.subFields == [];
    if FindField(desc.fields, sub.name).Some? {
      var f := FindField(desc.fields, sub.name).value;
      assert f in desc.fields && ValidField(pool, f);
      if f.kind.MessageField? || f.kind.MapField? {
        var mt := f.kind.typeName;
        assert RankedFields(pool, rank, t);
        assert mt in rank && rank[mt] < rank[t];
        if !ContainsMessage(acc, mt) {
          SubSize(desc, sel, i);
          if f.kind.MessageField? {
            assert mt !in stack;
            var inner := if wildcard then stack + {mt} else {};
            MessageNoCycle(pool, rank, mt, sub, inner);
          } else {
            MapNoCycle(pool, rank, mt, if wildcard then stack else {});
          }
        }
      }
    }
  }

  lemma {:induction false} MapNoCycle(pool: Pool, rank: map<string, nat>, mt: string, stack: set<string>)
    requires ValidPool(pool) && mt in pool.messages && pool.messages[mt].mapEntry && Ranked(pool, rank)
    requires StackAbove(rank, stack, mt)
    ensures !IsCycleError(ToMapDef(pool, mt, stack))
    decreases 1, pool.messages.Keys - stack, 0, 0
  {
    var entry := pool.messages[mt];
    var value := ValueField(entry);
    assert value in entry.fields && ValidField(pool, value);
    if value.kind.MessageField? {
      var vt := value.kind.typeName;
      assert RankedFields(pool, rank, mt);
      assert vt in rank && rank[vt] < rank[mt];
      assert vt !in stack;
      SizeOfLeaf(Selector(value.name, []));
      MessageNoCycle(pool, rank, vt, Selector(value.name, []), stack + {vt});
    }
  }

  // ---------------------------------------------------------------------------
  // A wildcard expansion never misses a field.
  // ---------------------------------------------------------------------------

  predicate IsMissingError(r: Result<MessageDef, PruneError>)
  {
    r.Err? && r.error.FieldNotFound?
  }

  /** Below a wildcard every name comes from the descriptor itself, so the only possible failure is a cycle. */
  lemma {:induction false} WildcardNeverMissing(pool: Pool, t: string, sel: Selector, stack: set<string>)
    requires ValidPool(pool) && t in pool.messages && sel.subFields == []
    ensures !IsMissingError(ToMessageDef(pool, t, sel, stack))
    decreases Size(sel), pool.messages.Keys - stack, 2, 0
  {
    FieldsNeverMissing(pool, t, sel, 0, MessageDef(pool.messages[t].name, [], [], [], false), stack);
  }

  lemma {:induction false} FieldsNeverMissing(pool: Pool, t: string, sel: Selector, i: nat, acc: MessageDef, stack: set<string>)
    requires ValidPool(pool) && t in pool.messages && sel.subFields == []
    requires i <= |Subs(pool.messages[t], sel)|
    ensures !IsMissingError(AddFields(pool, t, sel, i, acc, stack))
    decreases Size(sel), pool.messages.Keys - stack, 1, |Subs(pool.messages[t], sel)| - i
  {
    if i < |Subs(pool.messages[t], sel)| {
      FieldNeverMissing(pool, t, sel, i, acc, stack);
      var r1 := AddField(pool, t, sel, i, acc, stack);
      if r1.Ok? {
        FieldsNeverMissing(pool, t, sel, i + 1, r1.value, stack);
      }
    }
  }

  lemma {:induction false} FieldNeverMissing(pool: Pool, t: string, sel: Selector, i: nat, acc: MessageDef, stack: set<string>)
    requires ValidPool(pool) && t in pool.messages && sel.subFields == []
    requires i < |Subs(pool.messages[t], sel)|
    ensures !IsMissingError(AddField(pool, t, sel, i, acc, stack))
    decreases Size(sel), pool.messages.Keys - stack, 1, |Subs(pool.messages[t], sel)| - i - 1
  {
    var desc := pool.messages[t];
    var sub := Subs(desc, sel)[i];
    FindFieldFindsEach(desc.fields, i);
    var f := desc.fields[i];
    assert sub.name == f.name && sub.subFields == [];
    assert ValidField(pool, f);
    if f.kind.MessageField? || f.kind.MapField? {
      var mt := f.kind.typeName;
      if !ContainsMessage(acc, mt) {
        SubSize(desc, sel, i);
        if f.kind.MessageField? {
          if mt !in stack {
            WildcardNeverMissing(pool, mt, sub, stack + {mt});
          }
        } else {
          MapNeverMissing(pool, mt, stack);
        }
      }
    }
  }

  lemma {:induction false} MapNeverMissing(pool: Pool, mt: string, stack: set<string>)
    requires ValidPool(pool) && mt in pool.messages && pool.messages[mt].mapEntry
    ensures !IsMissingError(ToMapDef(pool, mt, stack))
    decreases 1, pool.messages.Keys - stack, 0, 0
  {
    var value := ValueField(pool.messages[mt]);
    assert value in pool.messages[mt].fields && ValidField(pool, value);
    if value.kind.MessageField? && value.kind.typeName !in stack {
      var vt := value.kind.typeName;
      SizeOfLeaf(Selector(value.name, []));
      WildcardNeverMissing(pool, vt, Selector(value.name, []), stack + {vt});
    }
  }

  /** On an acyclic schema a wildcard always succeeds. */
  lemma WildcardTotalWhenAcyclic(pool: Pool, rank: map<string, nat>, t: string, sel: Selector)
    requires ValidPool(pool) && t in pool.messages && Ranked(pool, rank) && sel.subFields == []
    ensures ToMessageDef(pool, t, sel, {}).Ok?
  {
    WildcardNeverMissing(pool, t, sel, {});
    AcyclicNeverCyclic(pool, rank, t, sel);
  }

  // ---------------------------------------------------------------------------
  // When an explicit selection succeeds.
  // ---------------------------------------------------------------------------

  /**
   * The `j`-th selected name names a field of `t`, and when that field is a
   * message field its own sub-selection resolves in the field's type. Below a
   * map, scalar or enum field the sub-selection is not consulted.
   */
  ghost predicate ChildResolvable(pool: Pool, t: string, sel: Selector, j: int)
    requires ValidPool(pool) && t in pool.messages && 0 <= j < |sel.subFields|
    decreases sel, 0
  {
    match FindField(pool.messages[t].fields, sel.subFields[j].name)
    case None => false
    case Some(f) =>
      f.kind.MessageField? ==> f.kind.typeName in pool.messages && Resolvable(pool, f.kind.typeName, sel.subFields[j])
  }

  /** Every name the selector picks, at every level, names a field of the message it is looked up in. */
  ghost predicate Resolvable(pool: Pool, t: string, sel: Selector)
    requires ValidPool(pool) && t in pool.messages
    decreases sel, 1
  {
    forall j :: 0 <= j < |sel.subFields| ==> ChildResolvable(pool, t, sel, j)
  }

  /** A selection that resolves never fails with a missing field, whatever the schema. */
  lemma {:induction false} ResolvableNeverMissing(pool: Pool, t: string, sel: Selector, stack: set<string>)
    requires ValidPool(pool) && t in pool.messages && Resolvable(pool, t, sel)
    ensures !IsMissingError(ToMessageDef(pool, t, sel, stack))
    decreases Size(sel), pool.messages.Keys - stack, 2, 0
  {
    FieldsResolve(pool, t, sel, 0, MessageDef(pool.messages[t].name, [], [], [], false), stack);
  }

  lemma {:induction false} FieldsResolve(pool: Pool, t: string, sel: Selector, i: nat, acc: MessageDef, stack: set<string>)
    requires ValidPool(pool) && t in pool.messages && Resolvable(pool, t, sel)
    requires i <= |Subs(pool.messages[t], sel)|
    ensures !IsMissingError(AddFields(pool, t, sel, i, acc, stack))
    decreases Size(sel), pool.messages.Keys - stack, 1, |Subs(pool.messages[t], sel)| - i
  {
    if i < |Subs(pool.messages[t], sel)| {
      FieldResolves(pool, t, sel, i, acc, stack);
      var r1 := AddField(pool, t, sel, i, acc, stack);
      if r1.Ok? {
        FieldsResolve(pool, t, sel, i + 1, r1.value, stack);
      }
    }
  }

  lemma {:induction false} FieldResolves(pool: Pool, t: string, sel: Selector, i: nat, acc: MessageDef, stack: set<string>)
    requires ValidPool(pool) && t in pool.messages && i < |Subs(pool.messages[t], sel)|
    requires sel.subFields != [] ==> ChildResolvable(pool, t, sel, i)
    ensures !IsMissingError(AddField(pool, t, sel, i, acc, stack))
    decreases Size(sel), pool.messages.Keys - stack, 1, |Subs(pool.messages[t], sel)| - i - 1
  {
    if sel.subFields == [] {
      FieldNeverMissing(pool, t, sel, i, acc, stack);
    } else {
      var desc := pool.messages[t];
      var sub := sel.subFields[i];
      assert Subs(desc, sel)[i] == sub;
      var f := FindField(desc.fields, sub.name).value;
      assert f in desc.fields && ValidField(pool, f);
      if (f.kind.MessageField? || f.kind.MapField?) && !ContainsMessage(acc, f.kind.typeName) {
        SubSize(desc, sel, i);
        if f.kind.MessageField? {
          ResolvableNeverMissing(pool, f.kind.typeName, sub, {});
        } else {
          MapNeverMissing(pool, f.kind.typeName, {});
        }
      }
    }
  }

  /** On an acyclic schema a selection that resolves always succeeds. */
  lemma ResolvableSucceedsWhenAcyclic(pool: Pool, rank: map<string, nat>, t: string, sel: Selector)
    requires ValidPool(pool) && t in pool.messages && Ranked(pool, rank) && Resolvable(pool, t, sel)
    ensures ToMessageDef(pool, t, sel, {}).Ok?
  {
    ResolvableNeverMissing(pool, t, sel, {});
    AcyclicNeverCyclic(pool, rank, t, sel);
  }

  /**
   * On an acyclic schema, when the names before the `j`-th resolve and the
   * `j`-th names no field, the call fails with exactly that name and the
   * descriptor searched.
   */
  lemma ExplicitReportsFirstMissing(pool: Pool, rank: map<string, nat>, t: string, sel: Selector, j: int)
    requires ValidPool(pool) && t in pool.messages && Ranked(pool, rank) && 0 <= j < |sel.subFields|
    requires forall k :: 0 <= k < j ==> ChildResolvable(pool, t, sel, k)
    requires FindField(pool.messages[t].fields, sel.subFields[j].name).None?
    ensures ToMessageDef(pool, t, sel, {}) == Err(FieldNotFound(sel.subFields[j].name, pool.messages[t]))
  {
    FieldsReportFirstMissing(pool, rank, t, sel, j, 0, MessageDef(pool.messages[t].name, [], [], [], false));
  }

  lemma {:induction false} FieldsReportFirstMissing(pool: Pool, rank: map<string, nat>, t: string, sel: Selector, j: int,
                                                    i: nat, acc: MessageDef)
    requires ValidPool(pool) && t in pool.messages && Ranked(pool, rank) && i <= j < |sel.subFields|
    requires forall k :: i <= k < j ==> ChildResolvable(pool, t, sel, k)
    requires FindField(pool.messages[t].fields, sel.subFields[j].name).None?
    ensures AddFields(pool, t, sel, i, acc, {}) == Err(FieldNotFound(sel.subFields[j].name, pool.messages[t]))
    decreases j - i
  {
    assert Subs(pool.messages[t], sel) == sel.subFields;
    if i < j {
      FieldResolves(pool, t, sel, i, acc, {});
      FieldNoCycle(pool, rank, t, sel, i, acc, {});
      var r1 := AddField(pool, t, sel, i, acc, {});
      FieldsReportFirstMissing(pool, rank, t, sel, j, i + 1, r1.value);
    }
  }

  // ---------------------------------------------------------------------------
  // The definitions nested for the kept fields.
  // ---------------------------------------------------------------------------

  /** With unique names, looking up the name of a member field finds that field. */
  lemma FindFieldOfMember(fields: seq<FieldDesc>, f: FieldDesc)
    requires DistinctFieldNames(fields) && f in fields
    ensures FindField(fields, f.name) == Some(f)
  {
    var j :| 0 <= j < |fields| && fields[j] == f;
    FindFieldFindsEach(fields, j);
  }

  /**
   * What `d` nests for field `f`: an enum field's enum with all its values, a
   * message field's message, and a map field's map-entry definition with its
   * `key` and `value` fields.
   */
  ghost predicate DefinesReference(pool: Pool, d: MessageDef, f: FieldDesc)
  {
    && (f.kind.EnumField? ==> f.kind.typeName in pool.enums && ToEnumDef(pool.enums[f.kind.typeName]) in d.enums)
    && (f.kind.MessageField? ==> exists m :: m in d.messages && m.name == f.kind.typeName && !m.mapEntry)
    && (f.kind.MapField? ==>
          && f.kind.typeName in pool.messages
          && exists m :: m in d.messages && m.name == f.kind.typeName && m.mapEntry
                         && MapFieldsFaithful(pool.messages[f.kind.typeName], m))
  }

  /** One kept field's nested definition, from the soundness of the definition holding it. */
  lemma EntryDefinesReference(pool: Pool, d: MessageDef, desc: MessageDesc, f: FieldDesc)
    requires ValidPool(pool) && desc.name in pool.messages && pool.messages[desc.name] == desc
    requires Sound(pool, d) && d.name == desc.name && !d.mapEntry
    requires f in desc.fields && EntryOf(f) in d.fields
    ensures DefinesReference(pool, d, f)
  {
    assert ValidMessage(pool, desc);
    FindFieldOfMember(desc.fields, f);
    assert ValidField(pool, f);
    assert ReferenceNested(d, f);
    if f.kind.EnumField? {
      var k :| 0 <= k < |d.enums| && d.enums[k].name == f.kind.typeName;
      assert d.enums[k] == ToEnumDef(pool.enums[f.kind.typeName]);
    } else if f.kind.MessageField? || f.kind.MapField? {
      var k :| 0 <= k < |d.messages| && d.messages[k].name == f.kind.typeName;
      var m := d.messages[k];
      assert Faithful(pool, m) && m.mapEntry == pool.messages[m.name].mapEntry;
      assert LevelFaithful(pool, m);
    }
  }

  /**
   * Every kept enum, message or map field has its definition nested beside it,
   * taken from the source; a kept map field is labelled `repeated`.
   */
  lemma NestedDefinitionsMatch(pool: Pool, t: string, sel: Selector, stack: set<string>)
    requires ValidPool(pool) && t in pool.messages
    ensures ToMessageDef(pool, t, sel, stack).Ok? ==>
              forall f :: f in Select(pool.messages[t].fields, Subs(pool.messages[t], sel)).value ==>
                && DefinesReference(pool, ToMessageDef(pool, t, sel, stack).value, f)
                && (f.kind.MapField? ==> EntryOf(f).fieldLabel == Some("repeated"))
  {
    var r := ToMessageDef(pool, t, sel, stack);
    if r.Ok? {
      var desc := pool.messages[t];
      var kept := Select(desc.fields, Subs(desc, sel)).value;
      MessageDefSound(pool, t, sel, stack);
      SelectMatches(desc.fields, Subs(desc, sel));
      forall f | f in kept
        ensures DefinesReference(pool, r.value, f) && (f.kind.MapField? ==> EntryOf(f).fieldLabel == Some("repeated"))
      {
        var k :| 0 <= k < |kept| && kept[k] == f;
        assert r.value.fields[k] == EntryOf(f);
        assert f in desc.fields && ValidField(pool, f);
        EntryDefinesReference(pool, r.value, desc, f);
      }
    }
  }

  /**
   * Once a message or map-entry type is nested in the scope, a further field of
   * that type adds its entry and nothing else, whatever its own sub-selection.
   */
  lemma FirstOccurrenceWins(pool: Pool, t: string, sel: Selector, i: nat, acc: MessageDef, stack: set<string>, f: FieldDesc)
    requires ValidPool(pool) && t in pool.messages && i < |Subs(pool.messages[t], sel)|
    requires FindField(pool.messages[t].fields, Subs(pool.messages[t], sel)[i].name) == Some(f)
    requires (f.kind.MessageField? || f.kind.MapField?) && ContainsMessage(acc, f.kind.typeName)
    ensures AddField(pool, t, sel, i, acc, stack) == Ok(AddEntry(acc, EntryOf(f)))
  {
    assert f in pool.messages[t].fields && ValidField(pool, f);
  }

  // ---------------------------------------------------------------------------
  // Each nested message is the prune of its type under the selector of the
  // first kept field that refers to it, and nothing else is nested.
  // ---------------------------------------------------------------------------

  /** The message or map-entry type a field refers to, if any. */
  function RefType(f: FieldDesc): Option<string>
  {
    if f.kind.MessageField? || f.kind.MapField? then Some(f.kind.typeName) else None
  }

  /** The type the field of the `j`-th selected name refers to, if that field exists and refers to one. */
  function RefAt(pool: Pool, t: string, sel: Selector, j: int): Option<string>
    requires t in pool.messages && 0 <= j < |Subs(pool.messages[t], sel)|
  {
    match FindField(pool.messages[t].fields, Subs(pool.messages[t], sel)[j].name)
    case None => None
    case Some(f) => RefType(f)
  }

  /** The `j`-th selected field is the first selected field to refer to its type. */
  ghost predicate FirstUse(pool: Pool, t: string, sel: Selector, j: int)
    requires t in pool.messages && 0 <= j < |Subs(pool.messages[t], sel)|
  {
    RefAt(pool, t, sel, j).Some? && forall k :: 0 <= k < j ==> RefAt(pool, t, sel, k) != RefAt(pool, t, sel, j)
  }

  /**
   * `m` is what the `j`-th selected field nests: the prune of its message type
   * under that field's own selector, or the map-entry definition of its map type.
   */
  ghost predicate NestedFor(pool: Pool, t: string, sel: Selector, stack: set<string>, j: int, m: MessageDef)
    requires ValidPool(pool) && t in pool.messages && 0 <= j < |Subs(pool.messages[t], sel)|
  {
    var sub := Subs(pool.messages[t], sel)[j];
    var wildcard := sel.subFields == [];
    match FindField(pool.messages[t].fields, sub.name)
    case None => false
    case Some(f) =>
      match f.kind
      case MessageField(mt) =>
        mt in pool.messages && ToMessageDef(pool, mt, sub, if wildcard then stack + {mt} else {}) == Ok(m)
      case MapField(mt) =>
        mt in pool.messages && pool.messages[mt].mapEntry && ToMapDef(pool, mt, if wildcard then stack else {}) == Ok(m)
      case Scalar(_, _) => false
      case EnumField(_) => false
  }

  /**
   * The builder `acc` after the first `i` selected fields: it holds a nested
   * message of a name iff one of those fields refers to that type, and its
   * nested messages are exactly what their first uses nest.
   */
  ghost predicate NestedSoFar(pool: Pool, t: string, sel: Selector, stack: set<string>, i: int, acc: MessageDef)
    requires ValidPool(pool) && t in pool.messages && 0 <= i <= |Subs(pool.messages[t], sel)|
  {
    && (forall n :: ContainsMessage(acc, n) <==> exists k :: 0 <= k < i && RefAt(pool, t, sel, k) == Some(n))
    && (forall m :: m in acc.messages ==>
          exists k :: 0 <= k < i && FirstUse(pool, t, sel, k) && NestedFor(pool, t, sel, stack, k, m))
    && (forall k :: 0 <= k < i && FirstUse(pool, t, sel, k) ==>
          exists m :: m in acc.messages && NestedFor(pool, t, sel, stack, k, m))
  }

  /** What one nested definition is: named after its type, and the prune or map-entry definition of that type. */
  lemma NestedForShape(pool: Pool, t: string, sel: Selector, stack: set<string>, j: int, m: MessageDef)
    requires ValidPool(pool) && t in pool.messages && 0 <= j < |Subs(pool.messages[t], sel)|
    requires NestedFor(pool, t, sel, stack, j, m)
    ensures RefAt(pool, t, sel, j) == Some(m.name)
    ensures var f := FindField(pool.messages[t].fields, Subs(pool.messages[t], sel)[j].name).value;
            && (f.kind.MessageField? ==>
                  !m.mapEntry && PrunedFrom(pool.messages[m.name], Subs(pool.messages[m.name], Subs(pool.messages[t], sel)[j]), m))
            && (f.kind.MapField? ==> m.mapEntry && MapDefShape(pool, pool.messages[m.name], m))
  {
  }

  /** One field step nests nothing, or exactly what the field nests when its type is not nested yet. */
  lemma FieldStepMessages(pool: Pool, t: string, sel: Selector, i: nat, acc: MessageDef, stack: set<string>)
    requires ValidPool(pool) && t in pool.messages && i < |Subs(pool.messages[t], sel)|
    requires AddField(pool, t, sel, i, acc, stack).Ok?
    ensures var acc1 := AddField(pool, t, sel, i, acc, stack).value;
            || ((RefAt(pool, t, sel, i).None? || ContainsMessage(acc, RefAt(pool, t, sel, i).value))
                && acc1.messages == acc.messages)
            || (&& RefAt(pool, t, sel, i).Some? && !ContainsMessage(acc, RefAt(pool, t, sel, i).value)
                && |acc1.messages| == |acc.messages| + 1
                && acc1.messages == acc.messages + [acc1.messages[|acc.messages|]]
                && NestedFor(pool, t, sel, stack, i, acc1.messages[|acc.messages|]))
  {
    var desc := pool.messages[t];
    var f := FindField(desc.fields, Subs(desc, sel)[i].name).value;
    assert f in desc.fields && ValidField(pool, f);
  }

  /** Appending one nested message `m` adds exactly its name. */
  lemma ContainsAfterAppend(acc: MessageDef, acc1: MessageDef, m: MessageDef)
    requires acc1.messages == acc.messages + [m]
    ensures forall n :: ContainsMessage(acc1, n) <==> ContainsMessage(acc, n) || n == m.name
  {
    forall n
      ensures ContainsMessage(acc1, n) <==> ContainsMessage(acc, n) || n == m.name
    {
      if ContainsMessage(acc1, n) && n != m.name {
        var q :| 0 <= q < |acc1.messages| && acc1.messages[q].name == n;
        assert q < |acc.messages| && acc.messages[q] == acc1.messages[q];
      }
      if ContainsMessage(acc, n) {
        var q :| 0 <= q < |acc.messages| && acc.messages[q].name == n;
        assert acc1.messages[q] == acc.messages[q];
      }
      assert acc1.messages[|acc.messages|] == m;
    }
  }

  /** One field step keeps the account of the nested messages. */
  lemma {:induction false} FieldNests(pool: Pool, t: string, sel: Selector, i: nat, acc: MessageDef, stack: set<string>)
    requires ValidPool(pool) && t in pool.messages && i < |Subs(pool.messages[t], sel)|
    requires NestedSoFar(pool, t, sel, stack, i, acc)
    ensures AddField(pool, t, sel, i, acc, stack).Ok? ==> NestedSoFar(pool, t, sel, stack, i + 1, AddField(pool, t, sel, i, acc, stack).value)
  {
    var r := AddField(pool, t, sel, i, acc, stack);
    if r.Ok? {
      var acc1 := r.value;
      FieldStepMessages(pool, t, sel, i, acc, stack);
      if acc1.messages == acc.messages && (RefAt(pool, t, sel, i).None? || ContainsMessage(acc, RefAt(pool, t, sel, i).value)) {
        NestedSoFarKeep(pool, t, sel, stack, i, acc, acc1);
      } else {
        var nested := acc1.messages[|acc.messages|];
        NestedForShape(pool, t, sel, stack, i, nested);
        NestedSoFarAppend(pool, t, sel, stack, i, acc, acc1, nested);
      }
    }
  }

  /** A field whose type is absent or already nested keeps the account. */
  lemma NestedSoFarKeep(pool: Pool, t: string, sel: Selector, stack: set<string>, i: nat, acc: MessageDef, acc1: MessageDef)
    requires ValidPool(pool) && t in pool.messages && i < |Subs(pool.messages[t], sel)|
    requires NestedSoFar(pool, t, sel, stack, i, acc) && acc1.messages == acc.messages
    requires RefAt(pool, t, sel, i).None? || ContainsMessage(acc, RefAt(pool, t, sel, i).value)
    ensures NestedSoFar(pool, t, sel, stack, i + 1, acc1)
  {
    assert !FirstUse(pool, t, sel, i);
    assert forall n :: ContainsMessage(acc1, n) == ContainsMessage(acc, n);
  }

  /** A field whose type is not nested yet appends what it nests, and the account grows by that field. */
  lemma NestedSoFarAppend(pool: Pool, t: string, sel: Selector, stack: set<string>, i: nat, acc: MessageDef, acc1: MessageDef,
                          nested: MessageDef)
    requires ValidPool(pool) && t in pool.messages && i < |Subs(pool.messages[t], sel)|
    requires NestedSoFar(pool, t, sel, stack, i, acc) && acc1.messages == acc.messages + [nested]
    requires RefAt(pool, t, sel, i) == Some(nested.name) && !ContainsMessage(acc, nested.name)
    requires NestedFor(pool, t, sel, stack, i, nested)
    ensures NestedSoFar(pool, t, sel, stack, i + 1, acc1)
  {
    assert FirstUse(pool, t, sel, i);
    ContainsAfterAppend(acc, acc1, nested);
  }

  lemma {:induction false} FieldsNest(pool: Pool, t: string, sel: Selector, i: nat, acc: MessageDef, stack: set<string>)
    requires ValidPool(pool) && t in pool.messages && i <= |Subs(pool.messages[t], sel)|
    requires NestedSoFar(pool, t, sel, stack, i, acc)
    ensures AddFields(pool, t, sel, i, acc, stack).Ok? ==>
              NestedSoFar(pool, t, sel, stack, |Subs(pool.messages[t], sel)|, AddFields(pool, t, sel, i, acc, stack).value)
    decreases |Subs(pool.messages[t], sel)| - i
  {
    if i < |Subs(pool.messages[t], sel)| {
      FieldNests(pool, t, sel, i, acc, stack);
      var r1 := AddField(pool, t, sel, i, acc, stack);
      if r1.Ok? {
        FieldsNest(pool, t, sel, i + 1, r1.value, stack);
      }
    }
  }

  /**
   * The nested messages of a pruned definition: for every selected field that
   * is the first to refer to its message or map-entry type, the definition of
   * that type pruned under the field's own selector; and nothing else.
   */
  lemma NestedMessagesPruned(pool: Pool, t: string, sel: Selector, stack: set<string>)
    requires ValidPool(pool) && t in pool.messages
    ensures ToMessageDef(pool, t, sel, stack).Ok? ==>
              && (forall j :: 0 <= j < |Subs(pool.messages[t], sel)| && FirstUse(pool, t, sel, j) ==>
                    exists m :: m in ToMessageDef(pool, t, sel, stack).value.messages && NestedFor(pool, t, sel, stack, j, m))
              && (forall m :: m in ToMessageDef(pool, t, sel, stack).value.messages ==>
                    exists j :: 0 <= j < |Subs(pool.messages[t], sel)| && FirstUse(pool, t, sel, j)
                                && NestedFor(pool, t, sel, stack, j, m))
  {
    var acc := MessageDef(pool.messages[t].name, [], [], [], false);
    assert NestedSoFar(pool, t, sel, stack, 0, acc);
    FieldsNest(pool, t, sel, 0, acc, stack);
  }

  /** The selected field a nested message of a pruned definition comes from. */
  lemma NestedSource(pool: Pool, t: string, sel: Selector, stack: set<string>, m: MessageDef) returns (j: int)
    requires ValidPool(pool) && t in pool.messages
    requires ToMessageDef(pool, t, sel, stack).Ok? && m in ToMessageDef(pool, t, sel, stack).value.messages
    ensures 0 <= j < |Subs(pool.messages[t], sel)| && FirstUse(pool, t, sel, j) && NestedFor(pool, t, sel, stack, j, m)
  {
    NestedMessagesPruned(pool, t, sel, stack);
    j :| 0 <= j < |Subs(pool.messages[t], sel)| && FirstUse(pool, t, sel, j) && NestedFor(pool, t, sel, stack, j, m);
  }

  /**
   * In the form of the definitions: the first selected field of message type
   * `mt` has the prune of `mt` under that field's selector nested beside it.
   */
  lemma NestedMessagePrunedFrom(pool: Pool, t: string, sel: Selector, stack: set<string>, j: int)
    requires ValidPool(pool) && t in pool.messages && 0 <= j < |Subs(pool.messages[t], sel)|
    ensures ToMessageDef(pool, t, sel, stack).Ok? && FirstUse(pool, t, sel, j)
            && FindField(pool.messages[t].fields, Subs(pool.messages[t], sel)[j].name).value.kind.MessageField? ==>
              var mt := FindField(pool.messages[t].fields, Subs(pool.messages[t], sel)[j].name).value.kind.typeName;
              exists m :: m in ToMessageDef(pool, t, sel, stack).value.messages && m.name == mt
                          && PrunedFrom(pool.messages[mt], Subs(pool.messages[mt], Subs(pool.messages[t], sel)[j]), m)
  {
    NestedMessagesPruned(pool, t, sel, stack);
    if ToMessageDef(pool, t, sel, stack).Ok? && FirstUse(pool, t, sel, j) {
      var m :| m in ToMessageDef(pool, t, sel, stack).value.messages && NestedFor(pool, t, sel, stack, j, m);
      NestedForShape(pool, t, sel, stack, j, m);
    }
  }

  // ---------------------------------------------------------------------------
  // A message type used by two sibling fields is defined once, from the first
  // field's selection: `message M { int32 x = 1; int32 y = 2; }` and
  // `message Pair { M a = 1; M b = 2; }` selected as `a.x` and `b.y`.
  // ---------------------------------------------------------------------------

  function PairPool(): (p: Pool)
    ensures ValidPool(p) && "Pair" in p.messages && "M" in p.messages
  {
    Pool(map["M" := MessageDesc("M", [FieldDesc("x", 1, LabelOptional, Scalar(Int32, "0")),
                                     FieldDesc("y", 2, LabelOptional, Scalar(Int32, "0"))], false),
             "Pair" := MessageDesc("Pair", [FieldDesc("a", 1, LabelOptional, MessageField("M")),
                                           FieldDesc("b", 2, LabelOptional, MessageField("M"))], false)],
         map[])
  }

  /** The nested `M` holds only `x`: the selection under `b` plays no part. */
  lemma SharedTypeKeepsFirstSelection()
    ensures var sel := Selector("Pair", [Selector("a", [Selector("x", [])]), Selector("b", [Selector("y", [])])]);
            && ToMessageDef(PairPool(), "Pair", sel, {}).Ok?
            && ToMessageDef(PairPool(), "Pair", sel, {}).value.messages
               == [MessageDef("M", [FieldEntry(Some("optional"), "int32", "x", 1, Some("0"))], [], [], false)]
  {
    var pool := PairPool();
    var sa := Selector("a", [Selector("x", [])]);
    var sb := Selector("b", [Selector("y", [])]);
    var sel := Selector("Pair", [sa, sb]);
    var ex := FieldEntry(Some("optional"), "int32", "x", 1, Some("0"));
    var m := MessageDef("M", [ex], [], [], false);
    var m0 := MessageDef("M", [], [], [], false);
    assert Subs(pool.messages["M"], sa) == [Selector("x", [])];
    assert FindField(pool.messages["M"].fields, "x") == Some(pool.messages["M"].fields[0]);
    assert GetLabel(LabelOptional) == "optional" && ScalarName(Int32) == "int32";
    assert AddField(pool, "M", sa, 0, m0, {}) == Ok(AddEntry(m0, ex));
    assert AddEntry(m0, ex) == m;
    assert AddFields(pool, "M", sa, 1, m, {}) == Ok(m);
    assert ToMessageDef(pool, "M", sa, {}) == Ok(m);
    var acc0 := MessageDef("Pair", [], [], [], false);
    var ea := FieldEntry(Some("optional"), "M", "a", 1, None);
    var eb := FieldEntry(Some("optional"), "M", "b", 2, None);
    var acc1 := MessageDef("Pair", [ea], [m], [], false);
    var acc2 := MessageDef("Pair", [ea, eb], [m], [], false);
    assert Subs(pool.messages["Pair"], sel) == [sa, sb];
    assert FindField(pool.messages["Pair"].fields, "a") == Some(pool.messages["Pair"].fields[0]);
    assert FindField(pool.messages["Pair"].fields, "b") == Some(pool.messages["Pair"].fields[1]);
    assert !ContainsMessage(acc0, "M");
    assert pool.messages["M"].name == "M";
    assert AddEntry(AddMessageDef(acc0, m), ea) == acc1;
    assert AddField(pool, "Pair", sel, 0, acc0, {}) == Ok(AddEntry(AddMessageDef(acc0, m), ea));
    assert acc1.messages[0].name == "M";
    assert AddEntry(acc1, eb) == acc2;
    assert AddField(pool, "Pair", sel, 1, acc1, {}) == Ok(AddEntry(acc1, eb));
    assert AddFields(pool, "Pair", sel, 2, acc2, {}) == Ok(acc2);
    assert AddFields(pool, "Pair", sel, 1, acc1, {}) == Ok(acc2);
    assert AddFields(pool, "Pair", sel, 0, acc0, {}) == Ok(acc2);
  }
}
