/**
 * The descriptor pruner: walks a message descriptor together with a selector
 * node and emits the reduced message definition, recursing into nested
 * messages, enums and map entries.
 *
 * Cycle policy: the model threads an in-progress set `stack` of the message
 * types entered during the current wildcard expansion and fails with
 * `CyclicSchema` on re-entry. Explicit selection needs no guard: it follows
 * the selector tree, which is finite, so it also terminates on recursive types.
 */
module PartialDynamicSchema {
  import opened Wrappers
  import opened Descriptors
  import opened Definitions
  import opened SelectionTree

  const PbMapKeyName: string := "key"
  const PbMapValueName: string := "value"

  datatype PruneError =
    /** A selected name with no field of that name in the message searched. */
    | FieldNotFound(fieldName: string, scope: MessageDesc)
    /** A wildcard expansion re-entered a message type it is still expanding. */
    | CyclicSchema(typeName: string)

  /** Reads a label word back into the descriptor label. */
  function ParseLabel(s: string): Option<Label>
  {
    if s == "optional" then Some(LabelOptional)
    else if s == "required" then Some(LabelRequired)
    else if s == "repeated" then Some(LabelRepeated)
    else None
  }

  /** The label word written for a field: one word per descriptor label, and no two alike. */
  function GetLabel(l: Label): (s: string)
    ensures ParseLabel(s) == Some(l)
    ensures s == "repeated" <==> l == LabelRepeated
  {
    match l
    case LabelOptional => "optional"
    case LabelRequired => "required"
    case LabelRepeated => "repeated"
  }

  /** `getType().name().toLowerCase()` of a field. */
  function TypeWord(k: FieldKind): string
  {
    match k
    case Scalar(t, _) => ScalarName(t)
    case EnumField(_) => "enum"
    case MessageField(_) => "message"
    case MapField(_) => "message"
  }

  /** The type a field entry must reference: the scalar word or the named type. */
  function DeclaredTypeName(k: FieldKind): string
  {
    if k.Scalar? then ScalarName(k.scalar) else k.typeName
  }

  /** Appends enum values one by one, as the enum builder does. */
  function AddValues(d: EnumDef, vs: seq<EnumValue>): (r: EnumDef)
    ensures r.name == d.name && r.values == d.values + vs
    decreases |vs|
  {
    if vs == [] then d
    else
      var r := AddValues(d.(values := d.values + [vs[0]]), vs[1..]);
      assert d.values + [vs[0]] + vs[1..] == d.values + vs;
      r
  }

  /** The enum definition: the enum's name and every (name, number) value, in source order. */
  function ToEnumDef(e: EnumDesc): (r: EnumDef)
    ensures r.name == e.name && r.values == e.values
  {
    AddValues(EnumDef(e.name, []), e.values)
  }

  /** The fresh leaf selectors a wildcard stands for: one per descriptor field, in order. */
  function Leaves(fields: seq<FieldDesc>): seq<Selector>
  {
    seq(|fields|, j requires 0 <= j < |fields| => Selector(fields[j].name, []))
  }

  /** The selectors a node selects: its children, or every field when it has none. */
  function Subs(desc: MessageDesc, sel: Selector): seq<Selector>
  {
    if sel.subFields == [] then Leaves(desc.fields) else sel.subFields
  }

  /**
   * The entry a source field is emitted as: same name and number, the label
   * word of its label, the type it declares, and its declared default exactly
   * when it is a non-repeated scalar.
   */
  function EntryOf(f: FieldDesc): (e: FieldEntry)
    ensures e.name == f.name && e.number == f.number
    ensures e.fieldLabel.Some? && ParseLabel(e.fieldLabel.value) == Some(f.fieldLabel)
    ensures f.kind.Scalar? ==> ScalarByName(e.typeName) == Some(f.kind.scalar)
    ensures !f.kind.Scalar? ==> e.typeName == f.kind.typeName
    ensures e.defaultValue.Some? <==> f.kind.Scalar? && f.fieldLabel != LabelRepeated
    ensures e.defaultValue.Some? ==> e.defaultValue.value == f.kind.defaultText
  {
    var e := FieldEntry(Some(GetLabel(f.fieldLabel)), DeclaredTypeName(f.kind), f.name, f.number,
               if f.kind.Scalar? && f.fieldLabel != LabelRepeated then Some(f.kind.defaultText) else None);
    if f.kind.Scalar? then ScalarNameRoundTrip(f.kind.scalar); e else e
  }

  function Entries(fs: seq<FieldDesc>): seq<FieldEntry>
  {
    seq(|fs|, j requires 0 <= j < |fs| => EntryOf(fs[j]))
  }

  /** The fields the selectors name, in selector order; none if some name has no field. */
  function Select(fields: seq<FieldDesc>, subs: seq<Selector>): (r: Option<seq<FieldDesc>>)
  {
    if subs == [] then Some([])
    else match FindField(fields, subs[0].name)
      case None => None
      case Some(f) =>
        match Select(fields, subs[1..])
        case None => None
        case Some(rest) => Some([f] + rest)
  }

  /** The two fields of a map-entry definition: `key` = 1 and `value` = 2, typed as in the source. */
  ghost predicate MapFieldsFaithful(entry: MessageDesc, d: MessageDef)
  {
    && MapEntryShape(entry)
    && d.fields == [
         FieldEntry(None, ScalarName(FindField(entry.fields, "key").value.kind.scalar), "key", 1, None),
         FieldEntry(None, DeclaredTypeName(FindField(entry.fields, "value").value.kind), "value", 2, None)]
  }

  /** `e` is the entry of the source field of its name. */
  ghost predicate FieldEntryFaithful(desc: MessageDesc, e: FieldEntry)
  {
    FindField(desc.fields, e.name).Some? && e == EntryOf(FindField(desc.fields, e.name).value)
  }

  /** The definition an enum or message field refers to is nested in `d`. */
  ghost predicate ReferenceNested(d: MessageDef, f: FieldDesc)
  {
    && (f.kind.EnumField? ==> ContainsEnum(d, f.kind.typeName))
    && (f.kind.MessageField? || f.kind.MapField? ==> ContainsMessage(d, f.kind.typeName))
  }

  /**
   * One level of a definition agrees with the source: each entry is the entry of
   * the source field of its name and the type it refers to is nested here; each
   * nested enum holds the source enum's values.
   */
  ghost predicate LevelFaithful(pool: Pool, d: MessageDef)
  {
    && d.name in pool.messages
    && (d.mapEntry ==> MapFieldsFaithful(pool.messages[d.name], d))
    && (!d.mapEntry ==> forall e :: e in d.fields ==>
          FieldEntryFaithful(pool.messages[d.name], e)
          && ReferenceNested(d, FindField(pool.messages[d.name].fields, e.name).value))
    && (forall k :: 0 <= k < |d.enums| ==>
          d.enums[k].name in pool.enums && d.enums[k].values == pool.enums[d.enums[k].name].values)
  }

  /** Every level of a definition tree agrees with the source descriptors it was taken from. */
  ghost predicate Faithful(pool: Pool, d: MessageDef)
    decreases d
  {
    && LevelFaithful(pool, d)
    && forall m :: m in d.messages ==> Faithful(pool, m) && m.mapEntry == pool.messages[m.name].mapEntry
  }

  /** `d` is the pruned message definition of `desc` for the selectors `subs`: its name and its entries. */
  ghost predicate PrunedFrom(desc: MessageDesc, subs: seq<Selector>, d: MessageDef)
  {
    && d.name == desc.name
    && !d.mapEntry
    && Select(desc.fields, subs).Some?
    && d.fields == Entries(Select(desc.fields, subs).value)
  }

  /** The value field of a map-entry type. */
  function ValueField(entry: MessageDesc): FieldDesc
    requires MapEntryShape(entry)
  {
    FindField(entry.fields, PbMapValueName).value
  }

  /** The map-entry definition of entry type `entry`, with the definitions nested in it. */
  ghost predicate MapDefShape(pool: Pool, entry: MessageDesc, d: MessageDef)
    requires ValidPool(pool) && entry.mapEntry && entry.name in pool.messages && pool.messages[entry.name] == entry
  {
    var value := ValueField(entry);
    && d.name == entry.name
    && d.mapEntry
    && MapFieldsFaithful(entry, d)
    && (value.kind.MessageField? || value.kind.MapField? ==>
          && value.kind.typeName in pool.messages
          && |d.messages| == 1 && d.enums == []
          && PrunedFrom(pool.messages[value.kind.typeName], Leaves(pool.messages[value.kind.typeName].fields), d.messages[0]))
    && (value.kind.EnumField? ==>
          value.kind.typeName in pool.enums && d.messages == [] && d.enums == [ToEnumDef(pool.enums[value.kind.typeName])])
    && (value.kind.Scalar? ==> d.messages == [] && d.enums == [])
  }

  function MapEntryDef(name: string, keyType: string, valueType: string, messages: seq<MessageDef>, enums: seq<EnumDef>)
    : MessageDef
  {
    MessageDef(name, [FieldEntry(None, keyType, PbMapKeyName, 1, None), FieldEntry(None, valueType, PbMapValueName, 2, None)],
               messages, enums, true)
  }

  /** `addField`. */
  function AddEntry(d: MessageDef, e: FieldEntry): MessageDef
  {
    d.(fields := d.fields + [e])
  }

  /** `addMessageDefinition`. */
  function AddMessageDef(d: MessageDef, md: MessageDef): MessageDef
  {
    d.(messages := d.messages + [md])
  }

  /** `addEnumDefinition`. */
  function AddEnumDef(d: MessageDef, ed: EnumDef): MessageDef
  {
    d.(enums := d.enums + [ed])
  }

  /** A missing-field error names a field that the message type searched, one of the pool's, lacks. */
  ghost predicate ReportsMissing(pool: Pool, e: PruneError)
  {
    e.FieldNotFound? ==> e.scope in pool.messages.Values && FindField(e.scope.fields, e.fieldName).None?
  }

  /**
   * `toMessageDef`: the pruned definition of message type `t` under selector
   * `sel`. It is named after the descriptor and holds, in selection order, the
   * entry of the source field each selected name names; it fails when a name
   * has no field.
   */
  function ToMessageDef(pool: Pool, t: string, sel: Selector, stack: set<string>): (r: Result<MessageDef, PruneError>)
    requires ValidPool(pool) && t in pool.messages
    ensures r.Ok? ==> PrunedFrom(pool.messages[t], Subs(pool.messages[t], sel), r.value)
    ensures r.Err? ==> ReportsMissing(pool, r.error)
    decreases Size(sel), pool.messages.Keys - stack, 2, 0
  {
    var desc := pool.messages[t];
    var r := AddFields(pool, t, sel, 0, MessageDef(desc.name, [], [], [], false), stack);
    assert Subs(desc, sel)[0..] == Subs(desc, sel);
    r
  }

  /**
   * The `forEach` over the selected sub-fields, from the `i`-th on, adding to the
   * builder `acc`: one entry per selected name, in selection order.
   */
  function AddFields(pool: Pool, t: string, sel: Selector, i: nat, acc: MessageDef, stack: set<string>)
    : (r: Result<MessageDef, PruneError>)
    requires ValidPool(pool) && t in pool.messages
    requires i <= |Subs(pool.messages[t], sel)|
    ensures r.Ok? ==> r.value.name == acc.name && r.value.mapEntry == acc.mapEntry
    ensures r.Ok? ==> && Select(pool.messages[t].fields, Subs(pool.messages[t], sel)[i..]).Some?
                      && r.value.fields == acc.fields + Entries(Select(pool.messages[t].fields, Subs(pool.messages[t], sel)[i..]).value)
    ensures r.Err? ==> ReportsMissing(pool, r.error)
    decreases Size(sel), pool.messages.Keys - stack, 1, |Subs(pool.messages[t], sel)| - i
  {
    var subs := Subs(pool.messages[t], sel);
    if i == |subs| then
      assert subs[i..] == [];
      Ok(acc)
    else
      match AddField(pool, t, sel, i, acc, stack)
      case Err(err) => Err(err)
      case Ok(acc1) =>
        var r := AddFields(pool, t, sel, i + 1, acc1, stack);
        if r.Ok? then
          AppendStep(pool.messages[t].fields, subs, i, acc.fields, acc1.fields, r.value.fields);
          r
        else r
  }

  /**
   * The body of that `forEach` for the `i`-th selected name: look the field up,
   * fail if it is missing, and add its entry. Enum and message definitions are
   * added only when the scope holds none of that name yet; the map field whose
   * map-entry definition is added is labelled `repeated`.
   */
  function AddField(pool: Pool, t: string, sel: Selector, i: nat, acc: MessageDef, stack: set<string>)
    : (r: Result<MessageDef, PruneError>)
    requires ValidPool(pool) && t in pool.messages
    requires i < |Subs(pool.messages[t], sel)|
    ensures r.Ok? ==> r.value.name == acc.name && r.value.mapEntry == acc.mapEntry
    ensures r.Ok? ==> && FindField(pool.messages[t].fields, Subs(pool.messages[t], sel)[i].name).Some?
                      && r.value.fields == acc.fields + [EntryOf(FindField(pool.messages[t].fields, Subs(pool.messages[t], sel)[i].name).value)]
    ensures r.Err? ==> ReportsMissing(pool, r.error)
    decreases Size(sel), pool.messages.Keys - stack, 1, |Subs(pool.messages[t], sel)| - i - 1
  {
    var desc := pool.messages[t];
    var sub := Subs(desc, sel)[i];
    var wildcard := sel.subFields == [];
    match FindField(desc.fields, sub.name)
    case None => Err(FieldNotFound(sub.name, desc))
    case Some(f) =>
      assert f in desc.fields && ValidField(pool, f);
      var lbl := GetLabel(f.fieldLabel);
      match f.kind
      case Scalar(st, dv) =>
        var dflt := if f.fieldLabel == LabelRepeated then None else Some(dv);
        Ok(AddEntry(acc, FieldEntry(Some(lbl), ScalarName(st), f.name, f.number, dflt)))
      case EnumField(et) =>
        var ed := pool.enums[et];
        var acc1 := if ContainsEnum(acc, ed.name) then acc else AddEnumDef(acc, ToEnumDef(ed));
        Ok(AddEntry(acc1, FieldEntry(Some(lbl), ed.name, sub.name, f.number, None)))
      case MessageField(mt) =>
        var md := pool.messages[mt];
        var e := FieldEntry(Some(lbl), md.name, sub.name, f.number, None);
        if ContainsMessage(acc, md.name) then
          Ok(AddEntry(acc, e))
        else if wildcard && mt in stack then
          Err(CyclicSchema(mt))
        else
          SubSize(desc, sel, i);
          (match ToMessageDef(pool, mt, sub, if wildcard then stack + {mt} else {})
           case Err(err) => Err(err)
           case Ok(nested) => Ok(AddEntry(AddMessageDef(acc, nested), e)))
      case MapField(mt) =>
        var md := pool.messages[mt];
        if ContainsMessage(acc, md.name) then
          Ok(AddEntry(acc, FieldEntry(Some(lbl), md.name, sub.name, f.number, None)))
        else
          SubSize(desc, sel, i);
          match ToMapDef(pool, mt, if wildcard then stack else {})
          case Err(err) => Err(err)
          case Ok(mapDef) =>
            Ok(AddEntry(AddMessageDef(acc, mapDef), FieldEntry(Some("repeated"), md.name, sub.name, f.number, None)))
  }

  /**
   * `toMapDef`: the map-entry definition of entry type `mt`: flagged as a map
   * entry, with `key` = 1 of the key's type and `value` = 2 of the value's type;
   * a message value is pruned with a wildcard and nested here, and so is an
   * enum value's enum.
   */
  function ToMapDef(pool: Pool, mt: string, stack: set<string>): (r: Result<MessageDef, PruneError>)
    requires ValidPool(pool) && mt in pool.messages && pool.messages[mt].mapEntry
    ensures r.Ok? ==> MapDefShape(pool, pool.messages[mt], r.value)
    ensures r.Err? ==> ReportsMissing(pool, r.error)
    decreases 1, pool.messages.Keys - stack, 0, 0
  {
    var entry := pool.messages[mt];
    var keyDesc := FindField(entry.fields, PbMapKeyName).value;
    var valueDesc := FindField(entry.fields, PbMapValueName).value;
    assert valueDesc in entry.fields && ValidField(pool, valueDesc);
    var keyType := TypeWord(keyDesc.kind);
    if valueDesc.kind.MessageField? || valueDesc.kind.MapField? then
      var vt := valueDesc.kind.typeName;
      if vt in stack then Err(CyclicSchema(vt))
      else
        SizeOfLeaf(Selector(valueDesc.name, []));
        match ToMessageDef(pool, vt, Selector(valueDesc.name, []), stack + {vt})
        case Err(err) => Err(err)
        case Ok(vd) => Ok(MapEntryDef(entry.name, keyType, pool.messages[vt].name, [vd], []))
    else if valueDesc.kind.EnumField? then
      var ed := pool.enums[valueDesc.kind.typeName];
      Ok(MapEntryDef(entry.name, keyType, ed.name, [], [ToEnumDef(ed)]))
    else
      Ok(MapEntryDef(entry.name, keyType, TypeWord(valueDesc.kind), [], []))
  }

  /** Selecting from the `i`-th selector on is its field followed by the rest. */
  /** One step of the field loop: the `i`-th entry, then the entries from the next selector on. */
  lemma AppendStep(fields: seq<FieldDesc>, subs: seq<Selector>, i: nat, acc: seq<FieldEntry>, acc1: seq<FieldEntry>,
                   rest: seq<FieldEntry>)
    requires i < |subs| && FindField(fields, subs[i].name).Some?
    requires acc1 == acc + [EntryOf(FindField(fields, subs[i].name).value)]
    requires Select(fields, subs[i + 1..]).Some? && rest == acc1 + Entries(Select(fields, subs[i + 1..]).value)
    ensures Select(fields, subs[i..]).Some? && rest == acc + Entries(Select(fields, subs[i..]).value)
  {
    SelectStep(fields, subs, i);
  }

  lemma SelectStep(fields: seq<FieldDesc>, subs: seq<Selector>, i: nat)
    requires i < |subs|
    ensures Select(fields, subs[i..]).Some? <==>
              FindField(fields, subs[i].name).Some? && Select(fields, subs[i + 1..]).Some?
    ensures Select(fields, subs[i..]).Some? ==>
              Entries(Select(fields, subs[i..]).value)
              == [EntryOf(FindField(fields, subs[i].name).value)] + Entries(Select(fields, subs[i + 1..]).value)
  {
    assert subs[i..][0] == subs[i];
    assert subs[i..][1..] == subs[i + 1..];
  }

  /** A selected sub-selector is smaller than an explicit node; under a wildcard both are leaves. */
  lemma SubSize(desc: MessageDesc, sel: Selector, i: nat)
    requires i < |Subs(desc, sel)|
    ensures sel.subFields == [] ==> Size(sel) == 1 && Size(Subs(desc, sel)[i]) == 1
    ensures sel.subFields != [] ==> Size(Subs(desc, sel)[i]) < Size(sel) && Size(sel) >= 2
  {
    if sel.subFields == [] {
      SizeOfLeaf(sel);
      SizeOfLeaf(Subs(desc, sel)[i]);
    } else {
      SizeOfChild(sel, i);
    }
  }
}
