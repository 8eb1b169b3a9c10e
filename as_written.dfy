/**
 * `toMessageDef` and `toMapDef` exactly as the source writes them, beside the
 * corrected pruner of `PartialDynamicSchema`. The two differ in two places.
 * Wherever the source's recursion finishes, `AsWrittenAgrees` proves that the
 * results differ only in the second; `CycleExactlyWhereSourceDiverges` proves
 * that the corrected pruner reports a cycle exactly where it does not finish:
 *
 *  - The source has no cycle guard. A wildcard over a message type that
 *    contains itself recurses until the stack overflows. Here `fuel` counts
 *    the nested `toMessageDef` frames, and `None` means that the fuel ran out.
 *  - For a map whose value is an enum, the source writes the type word `enum`
 *    as the value's type and nests no enum definition, so the map-entry
 *    definition refers to a type that does not exist.
 */
module AsWritten {
  import opened Wrappers
  import opened Descriptors
  import opened Definitions
  import opened SelectionTree
  import opened PartialDynamicSchema
  import opened PrunerProperties

  /** `toMessageDef` as written: the corrected pruner less the cycle guard, run for `fuel` frames. */
  function ToMessageDefAsWritten(pool: Pool, t: string, sel: Selector, fuel: nat)
    : (r: Option<Result<MessageDef, PruneError>>)
    requires ValidPool(pool) && t in pool.messages
    ensures r.Some? && r.value.Ok? ==> PrunedFrom(pool.messages[t], Subs(pool.messages[t], sel), r.value.value)
    decreases fuel, 1, 0, 0
  {
    if fuel == 0 then None
    else
      var desc := pool.messages[t];
      var r := AddFieldsAsWritten(pool, t, sel, 0, MessageDef(desc.name, [], [], [], false), fuel - 1);
      assert Subs(desc, sel)[0..] == Subs(desc, sel);
      r
  }

  function AddFieldsAsWritten(pool: Pool, t: string, sel: Selector, i: nat, acc: MessageDef, fuel: nat)
    : (r: Option<Result<MessageDef, PruneError>>)
    requires ValidPool(pool) && t in pool.messages
    requires i <= |Subs(pool.messages[t], sel)|
    ensures r.Some? && r.value.Ok? ==>
              && r.value.value.name == acc.name && r.value.value.mapEntry == acc.mapEntry
              && Select(pool.messages[t].fields, Subs(pool.messages[t], sel)[i..]).Some?
              && r.value.value.fields
                 == acc.fields + Entries(Select(pool.messages[t].fields, Subs(pool.messages[t], sel)[i..]).value)
    decreases fuel, 3, |Subs(pool.messages[t], sel)| - i, 0
  {
    var subs := Subs(pool.messages[t], sel);
    if i == |subs| then
      assert subs[i..] == [];
      Some(Ok(acc))
    else
      var step := AddFieldAsWritten(pool, t, sel, i, acc, fuel);
      if step.None? || step.value.Err? then step
      else
        var r := AddFieldsAsWritten(pool, t, sel, i + 1, step.value.value, fuel);
        if r.Some? && r.value.Ok? then
          AppendStep(pool.messages[t].fields, subs, i, acc.fields, step.value.value.fields, r.value.value.fields);
          r
        else r
  }

  function AddFieldAsWritten(pool: Pool, t: string, sel: Selector, i: nat, acc: MessageDef, fuel: nat)
    : (r: Option<Result<MessageDef, PruneError>>)
    requires ValidPool(pool) && t in pool.messages
    requires i < |Subs(pool.messages[t], sel)|
    ensures r.Some? && r.value.Ok? ==>
              && r.value.value.name == acc.name && r.value.value.mapEntry == acc.mapEntry
              && FindField(pool.messages[t].fields, Subs(pool.messages[t], sel)[i].name).Some?
              && r.value.value.fields
                 == acc.fields + [EntryOf(FindField(pool.messages[t].fields, Subs(pool.messages[t], sel)[i].name).value)]
    decreases fuel, 2, 0, 0
  {
    var desc := pool.messages[t];
    var sub := Subs(desc, sel)[i];
    match FindField(desc.fields, sub.name)
    case None => Some(Err(FieldNotFound(sub.name, desc)))
    case Some(f) =>
      assert f in desc.fields && ValidField(pool, f);
      var lbl := GetLabel(f.fieldLabel);
      match f.kind
      case Scalar(st, dv) =>
        var dflt := if f.fieldLabel == LabelRepeated then None else Some(dv);
        Some(Ok(AddEntry(acc, FieldEntry(Some(lbl), ScalarName(st), f.name, f.number, dflt))))
      case EnumField(et) =>
        var ed := pool.enums[et];
        var acc1 := if ContainsEnum(acc, ed.name) then acc else AddEnumDef(acc, ToEnumDef(ed));
        Some(Ok(AddEntry(acc1, FieldEntry(Some(lbl), ed.name, sub.name, f.number, None))))
      case MessageField(mt) =>
        var md := pool.messages[mt];
        var e := FieldEntry(Some(lbl), md.name, sub.name, f.number, None);
        if ContainsMessage(acc, md.name) then
          Some(Ok(AddEntry(acc, e)))
        else
          (match ToMessageDefAsWritten(pool, mt, sub, fuel)
           case None => None
           case Some(Err(err)) => Some(Err(err))
           case Some(Ok(nested)) => Some(Ok(AddEntry(AddMessageDef(acc, nested), e))))
      case MapField(mt) =>
        var md := pool.messages[mt];
        if ContainsMessage(acc, md.name) then
          Some(Ok(AddEntry(acc, FieldEntry(Some(lbl), md.name, sub.name, f.number, None))))
        else
          match ToMapDefAsWritten(pool, mt, fuel)
          case None => None
          case Some(Err(err)) => Some(Err(err))
          case Some(Ok(mapDef)) =>
            Some(Ok(AddEntry(AddMessageDef(acc, mapDef), FieldEntry(Some("repeated"), md.name, sub.name, f.number, None))))
  }

  /**
   * `toMapDef` as written: the key and value type words, replaced by the type's
   * name only for a message value. That value is pruned with a wildcard and nested.
   */
  function ToMapDefAsWritten(pool: Pool, mt: string, fuel: nat): (r: Option<Result<MessageDef, PruneError>>)
    requires ValidPool(pool) && mt in pool.messages && pool.messages[mt].mapEntry
    ensures r.Some? && r.value.Ok? ==>
              && r.value.value.name == mt && r.value.value.mapEntry
              && EntryNames(r.value.value.fields) == [PbMapKeyName, PbMapValueName]
              && r.value.value.enums == []
    decreases fuel, 1, 1, 0
  {
    var entry := pool.messages[mt];
    var keyDesc := FindField(entry.fields, PbMapKeyName).value;
    var valueDesc := FindField(entry.fields, PbMapValueName).value;
    assert valueDesc in entry.fields && ValidField(pool, valueDesc);
    var keyType := TypeWord(keyDesc.kind);
    if valueDesc.kind.MessageField? then
      var vt := valueDesc.kind.typeName;
      match ToMessageDefAsWritten(pool, vt, Selector(valueDesc.name, []), fuel)
      case None => None
      case Some(Err(err)) => Some(Err(err))
      case Some(Ok(vd)) => Some(Ok(MapEntryDef(entry.name, keyType, pool.messages[vt].name, [vd], [])))
    else
      Some(Ok(MapEntryDef(entry.name, keyType, TypeWord(valueDesc.kind), [], [])))
  }

  // ---------------------------------------------------------------------------
  // In general: where the source's recursion finishes, the corrected pruner
  // gives the same answer up to the enum-valued map entries, and it reports a
  // cycle only where the source's recursion never finishes.
  // ---------------------------------------------------------------------------

  /**
   * A definition as the source writes it: every map-entry definition that
   * nests an enum gets the type word `enum` for its value and nests no enum.
   */
  function Erase(d: MessageDef): (r: MessageDef)
    ensures r.name == d.name && r.mapEntry == d.mapEntry
    decreases d
  {
    if d.mapEntry && |d.fields| == 2 && d.enums != [] then
      d.(fields := [d.fields[0], d.fields[1].(typeName := "enum")], enums := [])
    else
      d.(messages := seq(|d.messages|, k requires 0 <= k < |d.messages| => Erase(d.messages[k])))
  }

  /** A corrected result and an as-written result are the same up to `Erase`; neither is a cycle error. */
  ghost predicate Agrees(rc: Result<MessageDef, PruneError>, ra: Result<MessageDef, PruneError>)
  {
    || (rc.Ok? && ra.Ok? && ra.value == Erase(rc.value))
    || (rc.Err? && ra.Err? && rc.error == ra.error && !rc.error.CyclicSchema?)
  }

  /** `rc` is a cycle error for a type of `stack` whose wildcard the source enters with at most `fuel` frames left. */
  ghost predicate OuterCycle(pool: Pool, rc: Result<MessageDef, PruneError>, stack: set<string>, fuel: nat)
    requires ValidPool(pool)
  {
    && rc.Err? && rc.error.CyclicSchema?
    && rc.error.typeName in stack && rc.error.typeName in pool.messages
    && exists g: nat :: g <= fuel && ToMessageDefAsWritten(pool, rc.error.typeName, Selector(rc.error.typeName, []), g).Some?
  }

  /** `Erase` commutes with the three builder steps on a message that is not a map entry. */
  lemma EraseSteps(d: MessageDef, e: FieldEntry, ed: EnumDef, m: MessageDef)
    requires !d.mapEntry
    ensures Erase(AddEntry(d, e)) == AddEntry(Erase(d), e)
    ensures Erase(AddEnumDef(d, ed)) == AddEnumDef(Erase(d), ed)
    ensures Erase(AddMessageDef(d, m)) == AddMessageDef(Erase(d), Erase(m))
  {
    var d' := AddMessageDef(d, m);
    assert Erase(d').messages == Erase(d).messages + [Erase(m)] by {
      assert forall k :: 0 <= k < |d.messages| ==> d'.messages[k] == d.messages[k];
    }
  }

  /** `Erase` keeps the names of the nested definitions. */
  lemma EraseKeepsNames(d: MessageDef)
    requires !d.mapEntry
    ensures forall n :: ContainsMessage(Erase(d), n) <==> ContainsMessage(d, n)
    ensures forall n :: ContainsEnum(Erase(d), n) <==> ContainsEnum(d, n)
  {
    assert forall k :: 0 <= k < |d.messages| ==> Erase(d).messages[k].name == d.messages[k].name;
  }

  /** Under a wildcard the source's recursion does not depend on the selector's own name. */
  lemma AsWrittenLeafIrrelevant(pool: Pool, t: string, w1: Selector, w2: Selector, fuel: nat)
    requires ValidPool(pool) && t in pool.messages && w1.subFields == [] && w2.subFields == []
    ensures ToMessageDefAsWritten(pool, t, w1, fuel) == ToMessageDefAsWritten(pool, t, w2, fuel)
  {
    if fuel > 0 {
      FieldsLeafIrrelevant(pool, t, w1, w2, 0, MessageDef(pool.messages[t].name, [], [], [], false), fuel - 1);
    }
  }

  lemma {:induction false} FieldsLeafIrrelevant(pool: Pool, t: string, w1: Selector, w2: Selector, i: nat, acc: MessageDef, fuel: nat)
    requires ValidPool(pool) && t in pool.messages && w1.subFields == [] && w2.subFields == []
    requires i <= |Subs(pool.messages[t], w1)|
    ensures AddFieldsAsWritten(pool, t, w1, i, acc, fuel) == AddFieldsAsWritten(pool, t, w2, i, acc, fuel)
    decreases |Subs(pool.messages[t], w1)| - i
  {
    assert Subs(pool.messages[t], w1) == Subs(pool.messages[t], w2);
    if i < |Subs(pool.messages[t], w1)| {
      var step := AddFieldAsWritten(pool, t, w1, i, acc, fuel);
      assert step == AddFieldAsWritten(pool, t, w2, i, acc, fuel);
      if step.Some? && step.value.Ok? {
        FieldsLeafIrrelevant(pool, t, w1, w2, i + 1, step.value.value, fuel);
      }
    }
  }

  /**
   * The simulation: whenever the source's recursion finishes, the corrected
   * pruner agrees with it, or reports the cycle of a type still being expanded
   * further out, whose expansion the source has entered.
   */
  lemma {:induction false} MessageSim(pool: Pool, t: string, sel: Selector, stack: set<string>, fuel: nat)
    requires ValidPool(pool) && t in pool.messages
    ensures ToMessageDefAsWritten(pool, t, sel, fuel).Some? ==>
              || Agrees(ToMessageDef(pool, t, sel, stack), ToMessageDefAsWritten(pool, t, sel, fuel).value)
              || (fuel >= 1 && OuterCycle(pool, ToMessageDef(pool, t, sel, stack), stack, fuel - 1))
    decreases fuel, 1, 0, 0
  {
    if fuel > 0 {
      var acc := MessageDef(pool.messages[t].name, [], [], [], false);
      assert Erase(acc) == acc;
      FieldsSim(pool, t, sel, stack, 0, acc, fuel - 1);
      assert ToMessageDef(pool, t, sel, stack) == AddFields(pool, t, sel, 0, acc, stack);
      assert ToMessageDefAsWritten(pool, t, sel, fuel) == AddFieldsAsWritten(pool, t, sel, 0, acc, fuel - 1);
    }
  }

  lemma {:induction false} FieldsSim(pool: Pool, t: string, sel: Selector, stack: set<string>, i: nat, acc: MessageDef, fuel: nat)
    requires ValidPool(pool) && t in pool.messages && i <= |Subs(pool.messages[t], sel)| && !acc.mapEntry
    ensures AddFieldsAsWritten(pool, t, sel, i, Erase(acc), fuel).Some? ==>
              || Agrees(AddFields(pool, t, sel, i, acc, stack), AddFieldsAsWritten(pool, t, sel, i, Erase(acc), fuel).value)
              || OuterCycle(pool, AddFields(pool, t, sel, i, acc, stack), stack, fuel)
    decreases fuel, 3, |Subs(pool.messages[t], sel)| - i, 0
  {
    if i < |Subs(pool.messages[t], sel)| {
      FieldSim(pool, t, sel, stack, i, acc, fuel);
      var rc := AddField(pool, t, sel, i, acc, stack);
      if rc.Ok? {
        FieldsSim(pool, t, sel, stack, i + 1, rc.value, fuel);
      }
    }
  }

  lemma {:induction false} FieldSim(pool: Pool, t: string, sel: Selector, stack: set<string>, i: nat, acc: MessageDef, fuel: nat)
    requires ValidPool(pool) && t in pool.messages && i < |Subs(pool.messages[t], sel)| && !acc.mapEntry
    ensures AddFieldAsWritten(pool, t, sel, i, Erase(acc), fuel).Some? ==>
              || Agrees(AddField(pool, t, sel, i, acc, stack), AddFieldAsWritten(pool, t, sel, i, Erase(acc), fuel).value)
              || OuterCycle(pool, AddField(pool, t, sel, i, acc, stack), stack, fuel)
    decreases fuel, 2, 1, 0
  {
    var desc := pool.messages[t];
    var sub := Subs(desc, sel)[i];
    EraseKeepsNames(acc);
    if FindField(desc.fields, sub.name).Some? {
      var f := FindField(desc.fields, sub.name).value;
      assert f in desc.fields && ValidField(pool, f);
      var e := FieldEntry(Some(GetLabel(f.fieldLabel)), DeclaredTypeName(f.kind), f.name, f.number,
                          if f.kind.Scalar? && f.fieldLabel != LabelRepeated then Some(f.kind.defaultText) else None);
      if f.kind.Scalar? {
        EraseSteps(acc, e, EnumDef("", []), acc);
      } else if f.kind.EnumField? {
        var ed := ToEnumDef(pool.enums[f.kind.typeName]);
        EraseSteps(acc, e, ed, acc);
        EraseSteps(AddEnumDef(acc, ed), e, ed, acc);
      } else if f.kind.MessageField? {
        FieldSimMessage(pool, t, sel, stack, i, acc, fuel, f);
      } else {
        FieldSimMap(pool, t, sel, stack, i, acc, fuel, f);
      }
    }
  }

  lemma {:induction false} FieldSimMessage(pool: Pool, t: string, sel: Selector, stack: set<string>, i: nat, acc: MessageDef,
                                           fuel: nat, f: FieldDesc)
    requires ValidPool(pool) && t in pool.messages && i < |Subs(pool.messages[t], sel)| && !acc.mapEntry
    requires FindField(pool.messages[t].fields, Subs(pool.messages[t], sel)[i].name) == Some(f)
    requires f.kind.MessageField? && ValidField(pool, f)
    ensures AddFieldAsWritten(pool, t, sel, i, Erase(acc), fuel).Some? ==>
              || Agrees(AddField(pool, t, sel, i, acc, stack), AddFieldAsWritten(pool, t, sel, i, Erase(acc), fuel).value)
              || OuterCycle(pool, AddField(pool, t, sel, i, acc, stack), stack, fuel)
    decreases fuel, 2, 0, 0
  {
    var sub := Subs(pool.messages[t], sel)[i];
    var mt := f.kind.typeName;
    var wildcard := sel.subFields == [];
    var e := FieldEntry(Some(GetLabel(f.fieldLabel)), mt, sub.name, f.number, None);
    EraseKeepsNames(acc);
    EraseSteps(acc, e, EnumDef("", []), acc);
    if wildcard {
      assert sub.subFields == [];
      AsWrittenLeafIrrelevant(pool, mt, sub, Selector(mt, []), fuel);
      Descent(pool, mt, sub, stack, fuel);
    }
    if !ContainsMessage(acc, mt) && !(wildcard && mt in stack) {
      var inner := if wildcard then stack + {mt} else {};
      MessageSim(pool, mt, sub, inner, fuel);
      var rc1 := ToMessageDef(pool, mt, sub, inner);
      if rc1.Ok? {
        EraseSteps(acc, e, EnumDef("", []), rc1.value);
        EraseSteps(AddMessageDef(acc, rc1.value), e, EnumDef("", []), acc);
      }
    }
  }

  lemma {:induction false} FieldSimMap(pool: Pool, t: string, sel: Selector, stack: set<string>, i: nat, acc: MessageDef,
                                       fuel: nat, f: FieldDesc)
    requires ValidPool(pool) && t in pool.messages && i < |Subs(pool.messages[t], sel)| && !acc.mapEntry
    requires FindField(pool.messages[t].fields, Subs(pool.messages[t], sel)[i].name) == Some(f)
    requires f.kind.MapField? && ValidField(pool, f)
    ensures AddFieldAsWritten(pool, t, sel, i, Erase(acc), fuel).Some? ==>
              || Agrees(AddField(pool, t, sel, i, acc, stack), AddFieldAsWritten(pool, t, sel, i, Erase(acc), fuel).value)
              || OuterCycle(pool, AddField(pool, t, sel, i, acc, stack), stack, fuel)
    decreases fuel, 2, 0, 0
  {
    var sub := Subs(pool.messages[t], sel)[i];
    var mt := f.kind.typeName;
    var e := FieldEntry(Some("repeated"), mt, sub.name, f.number, None);
    EraseKeepsNames(acc);
    EraseSteps(acc, e, EnumDef("", []), acc);
    if !ContainsMessage(acc, mt) {
      var inner := if sel.subFields == [] then stack else {};
      MapSim(pool, mt, inner, fuel);
      var rc1 := ToMapDef(pool, mt, inner);
      if rc1.Ok? {
        EraseSteps(acc, e, EnumDef("", []), rc1.value);
        EraseSteps(AddMessageDef(acc, rc1.value), e, EnumDef("", []), acc);
      }
    }
  }

  lemma {:induction false} MapSim(pool: Pool, mt: string, stack: set<string>, fuel: nat)
    requires ValidPool(pool) && mt in pool.messages && pool.messages[mt].mapEntry
    ensures ToMapDefAsWritten(pool, mt, fuel).Some? ==>
              || Agrees(ToMapDef(pool, mt, stack), ToMapDefAsWritten(pool, mt, fuel).value)
              || OuterCycle(pool, ToMapDef(pool, mt, stack), stack, fuel)
    decreases fuel, 1, 2, 0
  {
    var entry := pool.messages[mt];
    var keyType := TypeWord(FindField(entry.fields, PbMapKeyName).value.kind);
    var value := ValueField(entry);
    assert value in entry.fields && ValidField(pool, value);
    if value.kind.MessageField? {
      var vt := value.kind.typeName;
      var w := Selector(value.name, []);
      AsWrittenLeafIrrelevant(pool, vt, w, Selector(vt, []), fuel);
      Descent(pool, vt, w, stack, fuel);
      if vt !in stack {
        MessageSim(pool, vt, w, stack + {vt}, fuel);
        var rc1 := ToMessageDef(pool, vt, w, stack + {vt});
        if rc1.Ok? {
          assert Erase(MapEntryDef(entry.name, keyType, vt, [rc1.value], [])).messages == [Erase(rc1.value)];
        }
      }
    } else {
      assert Erase(MapEntryDef(entry.name, keyType, DeclaredTypeName(value.kind), [], [])).messages == [];
    }
  }

  /**
   * Re-entering a type's wildcard expansion is where the source never finishes:
   * if the source's wildcard over `u` finishes, the corrected pruner's
   * expansion of `u` does not come back to `u`.
   */
  lemma {:induction false} Descent(pool: Pool, u: string, w: Selector, stack: set<string>, fuel: nat)
    requires ValidPool(pool) && u in pool.messages && w.subFields == []
    ensures ToMessageDefAsWritten(pool, u, w, fuel).Some? ==> ToMessageDef(pool, u, w, stack + {u}) != Err(CyclicSchema(u))
    decreases fuel, 1, 1, 0
  {
    if fuel > 0 {
      MessageSim(pool, u, w, stack + {u}, fuel);
      forall g: nat | g <= fuel - 1 && ToMessageDefAsWritten(pool, u, Selector(u, []), g).Some?
        ensures ToMessageDef(pool, u, w, stack + {u}) != Err(CyclicSchema(u))
      {
        AsWrittenLeafIrrelevant(pool, u, w, Selector(u, []), g);
        Descent(pool, u, w, stack, g);
      }
    }
  }

  /**
   * Whenever the source's recursion finishes, the corrected pruner returns the
   * same definition up to the enum-valued map entries, or the same
   * missing-field error; there it never reports a cycle.
   */
  lemma AsWrittenAgrees(pool: Pool, t: string, sel: Selector, fuel: nat)
    requires ValidPool(pool) && t in pool.messages
    ensures ToMessageDefAsWritten(pool, t, sel, fuel).Some? ==>
              Agrees(ToMessageDef(pool, t, sel, {}), ToMessageDefAsWritten(pool, t, sel, fuel).value)
  {
    MessageSim(pool, t, sel, {}, fuel);
  }

  /** More fuel changes nothing once the source's recursion has finished. */
  lemma {:induction false} MessageMono(pool: Pool, t: string, sel: Selector, fuel: nat, more: nat)
    requires ValidPool(pool) && t in pool.messages && fuel <= more
    ensures ToMessageDefAsWritten(pool, t, sel, fuel).Some? ==>
              ToMessageDefAsWritten(pool, t, sel, more) == ToMessageDefAsWritten(pool, t, sel, fuel)
    decreases fuel, 1, 0, 0
  {
    if fuel > 0 {
      FieldsMono(pool, t, sel, 0, MessageDef(pool.messages[t].name, [], [], [], false), fuel - 1, more - 1);
    }
  }

  lemma {:induction false} FieldsMono(pool: Pool, t: string, sel: Selector, i: nat, acc: MessageDef, fuel: nat, more: nat)
    requires ValidPool(pool) && t in pool.messages && i <= |Subs(pool.messages[t], sel)| && fuel <= more
    ensures AddFieldsAsWritten(pool, t, sel, i, acc, fuel).Some? ==>
              AddFieldsAsWritten(pool, t, sel, i, acc, more) == AddFieldsAsWritten(pool, t, sel, i, acc, fuel)
    decreases fuel, 3, |Subs(pool.messages[t], sel)| - i, 0
  {
    if i < |Subs(pool.messages[t], sel)| {
      FieldMono(pool, t, sel, i, acc, fuel, more);
      var step := AddFieldAsWritten(pool, t, sel, i, acc, fuel);
      if step.Some? && step.value.Ok? {
        FieldsMono(pool, t, sel, i + 1, step.value.value, fuel, more);
      }
    }
  }

  lemma {:induction false} FieldMono(pool: Pool, t: string, sel: Selector, i: nat, acc: MessageDef, fuel: nat, more: nat)
    requires ValidPool(pool) && t in pool.messages && i < |Subs(pool.messages[t], sel)| && fuel <= more
    ensures AddFieldAsWritten(pool, t, sel, i, acc, fuel).Some? ==>
              AddFieldAsWritten(pool, t, sel, i, acc, more) == AddFieldAsWritten(pool, t, sel, i, acc, fuel)
    decreases fuel, 2, 0, 0
  {
    var desc := pool.messages[t];
    var sub := Subs(desc, sel)[i];
    if FindField(desc.fields, sub.name).Some? {
      var f := FindField(desc.fields, sub.name).value;
      assert f in desc.fields && ValidField(pool, f);
      if f.kind.MessageField? {
        MessageMono(pool, f.kind.typeName, sub, fuel, more);
      } else if f.kind.MapField? {
        MapMono(pool, f.kind.typeName, fuel, more);
      }
    }
  }

  lemma {:induction false} MapMono(pool: Pool, mt: string, fuel: nat, more: nat)
    requires ValidPool(pool) && mt in pool.messages && pool.messages[mt].mapEntry && fuel <= more
    ensures ToMapDefAsWritten(pool, mt, fuel).Some? ==> ToMapDefAsWritten(pool, mt, more) == ToMapDefAsWritten(pool, mt, fuel)
    decreases fuel, 1, 1, 0
  {
    var value := FindField(pool.messages[mt].fields, PbMapValueName).value;
    assert value in pool.messages[mt].fields && ValidField(pool, value);
    if value.kind.MessageField? {
      MessageMono(pool, value.kind.typeName, Selector(value.name, []), fuel, more);
    }
  }

  /**
   * The converse of the simulation: where the corrected pruner reports no cycle,
   * no cycle check fired, the source makes the same calls, and its recursion
   * finishes once it has `fuel` frames. The measures are the corrected pruner's.
   */
  lemma {:induction false} MessageFinishes(pool: Pool, t: string, sel: Selector, stack: set<string>) returns (fuel: nat)
    requires ValidPool(pool) && t in pool.messages
    ensures !IsCycleError(ToMessageDef(pool, t, sel, stack)) ==> ToMessageDefAsWritten(pool, t, sel, fuel).Some?
    decreases Size(sel), pool.messages.Keys - stack, 2, 0
  {
    var acc := MessageDef(pool.messages[t].name, [], [], [], false);
    assert Erase(acc) == acc;
    var g := FieldsFinish(pool, t, sel, 0, acc, stack);
    fuel := g + 1;
  }

  lemma {:induction false} FieldsFinish(pool: Pool, t: string, sel: Selector, i: nat, acc: MessageDef, stack: set<string>)
    returns (fuel: nat)
    requires ValidPool(pool) && t in pool.messages && i <= |Subs(pool.messages[t], sel)| && !acc.mapEntry
    ensures !IsCycleError(AddFields(pool, t, sel, i, acc, stack)) ==>
              AddFieldsAsWritten(pool, t, sel, i, Erase(acc), fuel).Some?
    decreases Size(sel), pool.messages.Keys - stack, 1, |Subs(pool.messages[t], sel)| - i
  {
    fuel := 0;
    if i < |Subs(pool.messages[t], sel)| {
      var g1 := FieldFinishes(pool, t, sel, i, acc, stack);
      FieldSim(pool, t, sel, stack, i, acc, g1);
      fuel := g1;
      var rc := AddField(pool, t, sel, i, acc, stack);
      if rc.Ok? {
        var g2 := FieldsFinish(pool, t, sel, i + 1, rc.value, stack);
        fuel := if g1 < g2 then g2 else g1;
        FieldMono(pool, t, sel, i, Erase(acc), g1, fuel);
        FieldsMono(pool, t, sel, i + 1, Erase(rc.value), g2, fuel);
      }
    }
  }

  lemma {:induction false} FieldFinishes(pool: Pool, t: string, sel: Selector, i: nat, acc: MessageDef, stack: set<string>)
    returns (fuel: nat)
    requires ValidPool(pool) && t in pool.messages && i < |Subs(pool.messages[t], sel)| && !acc.mapEntry
    ensures !IsCycleError(AddField(pool, t, sel, i, acc, stack)) ==>
              AddFieldAsWritten(pool, t, sel, i, Erase(acc), fuel).Some?
    decreases Size(sel), pool.messages.Keys - stack, 1, |Subs(pool.messages[t], sel)| - i - 1
  {
    fuel := 0;
    var desc := pool.messages[t];
    var sub := Subs(desc, sel)[i];
    var wildcard := sel.subFields == [];
    EraseKeepsNames(acc);
    if FindField(desc.fields, sub.name).Some? {
      var f := FindField(desc.fields, sub.name).value;
      assert f in desc.fields && ValidField(pool, f);
      if f.kind.MessageField? && !ContainsMessage(acc, f.kind.typeName) && !(wildcard && f.kind.typeName in stack) {
        SubSize(desc, sel, i);
        var mt := f.kind.typeName;
        fuel := MessageFinishes(pool, mt, sub, if wildcard then stack + {mt} else {});
      } else if f.kind.MapField? && !ContainsMessage(acc, f.kind.typeName) {
        SubSize(desc, sel, i);
        fuel := MapFinishes(pool, f.kind.typeName, if wildcard then stack else {});
      }
    }
  }

  lemma {:induction false} MapFinishes(pool: Pool, mt: string, stack: set<string>) returns (fuel: nat)
    requires ValidPool(pool) && mt in pool.messages && pool.messages[mt].mapEntry
    ensures !IsCycleError(ToMapDef(pool, mt, stack)) ==> ToMapDefAsWritten(pool, mt, fuel).Some?
    decreases 1, pool.messages.Keys - stack, 0, 0
  {
    fuel := 0;
    var value := FindField(pool.messages[mt].fields, PbMapValueName).value;
    assert value in pool.messages[mt].fields && ValidField(pool, value);
    if value.kind.MessageField? && value.kind.typeName !in stack {
      SizeOfLeaf(Selector(value.name, []));
      fuel := MessageFinishes(pool, value.kind.typeName, Selector(value.name, []), stack + {value.kind.typeName});
    }
  }

  /** The corrected pruner reports a cycle exactly where the source's recursion never finishes. */
  lemma CycleExactlyWhereSourceDiverges(pool: Pool, t: string, sel: Selector)
    requires ValidPool(pool) && t in pool.messages
    ensures IsCycleError(ToMessageDef(pool, t, sel, {})) <==>
              forall fuel: nat :: ToMessageDefAsWritten(pool, t, sel, fuel).None?
  {
    forall fuel: nat
      ensures IsCycleError(ToMessageDef(pool, t, sel, {})) ==> ToMessageDefAsWritten(pool, t, sel, fuel).None?
    {
      AsWrittenAgrees(pool, t, sel, fuel);
    }
    var fuel := MessageFinishes(pool, t, sel, {});
  }

  /** No map-entry definition anywhere in `d` nests an enum. */
  ghost predicate NoEnumMapValues(d: MessageDef)
    decreases d
  {
    && !(d.mapEntry && |d.fields| == 2 && d.enums != [])
    && forall k :: 0 <= k < |d.messages| ==> NoEnumMapValues(d.messages[k])
  }

  lemma {:induction false} EraseIdentity(d: MessageDef)
    requires NoEnumMapValues(d)
    ensures Erase(d) == d
    decreases d
  {
    forall k | 0 <= k < |d.messages|
      ensures Erase(d.messages[k]) == d.messages[k]
    {
      EraseIdentity(d.messages[k]);
    }
    assert Erase(d).messages == d.messages;
  }

  /**
   * Where the source's recursion finishes and the result reaches no map whose
   * value is an enum, the source and the corrected pruner return the same
   * result, error or definition.
   */
  lemma AsWrittenEqualsCorrected(pool: Pool, t: string, sel: Selector, fuel: nat)
    requires ValidPool(pool) && t in pool.messages
    ensures var rc := ToMessageDef(pool, t, sel, {});
            ToMessageDefAsWritten(pool, t, sel, fuel).Some? && (rc.Err? || NoEnumMapValues(rc.value)) ==>
              ToMessageDefAsWritten(pool, t, sel, fuel) == Some(rc)
  {
    AsWrittenAgrees(pool, t, sel, fuel);
    var rc := ToMessageDef(pool, t, sel, {});
    if rc.Ok? && NoEnumMapValues(rc.value) {
      EraseIdentity(rc.value);
    }
  }

  // ---------------------------------------------------------------------------
  // A self-referential message: `message Node { Node next = 1; }`.
  // ---------------------------------------------------------------------------

  function NodePool(): (p: Pool)
    ensures ValidPool(p) && "Node" in p.messages
  {
    Pool(map["Node" := MessageDesc("Node", [FieldDesc("next", 1, LabelOptional, MessageField("Node"))], false)], map[])
  }

  /** As written, a wildcard over `Node` never finishes, whatever the depth allowed. */
  lemma {:induction false} NodeWildcardDiverges(sel: Selector, fuel: nat)
    requires sel.subFields == []
    ensures ToMessageDefAsWritten(NodePool(), "Node", sel, fuel).None?
    decreases fuel
  {
    if fuel > 0 {
      var pool := NodePool();
      var acc := MessageDef("Node", [], [], [], false);
      assert Subs(pool.messages["Node"], sel) == [Selector("next", [])];
      NodeWildcardDiverges(Selector("next", []), fuel - 1);
      assert !ContainsMessage(acc, "Node");
      assert AddFieldAsWritten(pool, "Node", sel, 0, acc, fuel - 1).None?;
    }
  }

  /** Corrected, the same wildcard stops with a cycle error on re-entering `Node`. */
  lemma NodeWildcardIsCyclic(sel: Selector)
    requires sel.subFields == []
    ensures ToMessageDef(NodePool(), "Node", sel, {}) == Err(CyclicSchema("Node"))
  {
    var pool := NodePool();
    var acc := MessageDef("Node", [], [], [], false);
    assert Subs(pool.messages["Node"], sel) == [Selector("next", [])];
    assert !ContainsMessage(acc, "Node");
    assert Subs(pool.messages["Node"], Selector("next", [])) == [Selector("next", [])];
    assert AddField(pool, "Node", Selector("next", []), 0, acc, {"Node"}) == Err(CyclicSchema("Node"));
    assert ToMessageDef(pool, "Node", Selector("next", []), {"Node"}) == Err(CyclicSchema("Node"));
    assert {} + {"Node"} == {"Node"};
    assert AddField(pool, "Node", sel, 0, acc, {}) == Err(CyclicSchema("Node"));
  }

  // ---------------------------------------------------------------------------
  // A map with enum values: `enum Color { RED = 0; }  message Holder { map<string, Color> tags = 1; }`.
  // ---------------------------------------------------------------------------

  function ColorEnum(): EnumDesc
  {
    EnumDesc("Color", [EnumValue("RED", 0)])
  }

  function TagsEntry(): MessageDesc
  {
    MessageDesc("TagsEntry",
                [FieldDesc("key", 1, LabelOptional, Scalar(String, "")),
                 FieldDesc("value", 2, LabelOptional, EnumField("Color"))], true)
  }

  function HolderPool(): (p: Pool)
    ensures ValidPool(p) && "Holder" in p.messages && "TagsEntry" in p.messages
  {
    var p := Pool(map["Holder" := MessageDesc("Holder", [FieldDesc("tags", 1, LabelRepeated, MapField("TagsEntry"))], false),
                      "TagsEntry" := TagsEntry()],
                  map["Color" := ColorEnum()]);
    assert FindField(TagsEntry().fields, "key") == Some(TagsEntry().fields[0]);
    assert FindField(TagsEntry().fields, "value") == Some(TagsEntry().fields[1]);
    p
  }

  /**
   * As written, the map-entry definition for `tags` gives its value the type
   * `enum` and nests no enum, so the definition does not satisfy the scope rules.
   */
  lemma EnumMapDangles(fuel: nat)
    requires fuel >= 1
    ensures ToMessageDefAsWritten(HolderPool(), "Holder", Selector("Holder", []), fuel).Some?
    ensures ToMessageDefAsWritten(HolderPool(), "Holder", Selector("Holder", []), fuel).value.Ok?
    ensures var d := ToMessageDefAsWritten(HolderPool(), "Holder", Selector("Holder", []), fuel).value.value;
            && |d.messages| == 1 && |d.messages[0].fields| == 2
            && d.messages[0].fields[1].typeName == "enum"
            && !WellScoped(d)
  {
    var pool := HolderPool();
    var acc := MessageDef("Holder", [], [], [], false);
    assert FindField(TagsEntry().fields, "key") == Some(TagsEntry().fields[0]);
    assert FindField(TagsEntry().fields, "value") == Some(TagsEntry().fields[1]);
    var mapDef := MapEntryDef("TagsEntry", "string", "enum", [], []);
    assert ToMapDefAsWritten(pool, "TagsEntry", fuel - 1) == Some(Ok(mapDef));
    assert !ContainsMessage(acc, "TagsEntry");
    var d := AddEntry(AddMessageDef(acc, mapDef), FieldEntry(Some("repeated"), "TagsEntry", "tags", 1, None));
    assert Subs(pool.messages["Holder"], Selector("Holder", [])) == [Selector("tags", [])];
    assert AddFieldAsWritten(pool, "Holder", Selector("Holder", []), 0, acc, fuel - 1) == Some(Ok(d));
    assert AddFieldsAsWritten(pool, "Holder", Selector("Holder", []), 1, d, fuel - 1) == Some(Ok(d));
    assert AddFieldsAsWritten(pool, "Holder", Selector("Holder", []), 0, acc, fuel - 1) == Some(Ok(d));
    assert ToMessageDefAsWritten(pool, "Holder", Selector("Holder", []), fuel) == Some(Ok(d));
    assert !IsScalarName("enum");
    assert !Resolves(mapDef, mapDef.fields[1]);
    assert !LevelScoped(mapDef);
    assert d.messages[0] == mapDef && mapDef in d.messages;
  }

  /**
   * Corrected, the value has the enum's own name and the enum is nested in the
   * map-entry definition, so the result satisfies the scope rules.
   */
  lemma EnumMapNestsEnum()
    ensures ToMessageDef(HolderPool(), "Holder", Selector("Holder", []), {}).Ok?
    ensures var d := ToMessageDef(HolderPool(), "Holder", Selector("Holder", []), {}).value;
            && |d.messages| == 1
            && d.messages[0].fields[1].typeName == "Color"
            && d.messages[0].enums == [EnumDef("Color", [EnumValue("RED", 0)])]
            && WellScoped(d)
  {
    var pool := HolderPool();
    var acc := MessageDef("Holder", [], [], [], false);
    assert FindField(TagsEntry().fields, "key") == Some(TagsEntry().fields[0]);
    assert FindField(TagsEntry().fields, "value") == Some(TagsEntry().fields[1]);
    var mapDef := MapEntryDef("TagsEntry", "string", "Color", [], [ToEnumDef(ColorEnum())]);
    assert ToMapDef(pool, "TagsEntry", {}) == Ok(mapDef);
    assert !ContainsMessage(acc, "TagsEntry");
    var d := AddEntry(AddMessageDef(acc, mapDef), FieldEntry(Some("repeated"), "TagsEntry", "tags", 1, None));
    assert Subs(pool.messages["Holder"], Selector("Holder", [])) == [Selector("tags", [])];
    assert AddField(pool, "Holder", Selector("Holder", []), 0, acc, {}) == Ok(d);
    assert ToMessageDef(pool, "Holder", Selector("Holder", []), {}) == Ok(d);
    MessageDefSound(pool, "Holder", Selector("Holder", []), {});
  }
}
