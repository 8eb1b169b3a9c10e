/**
 * The definition values the pruner emits and hands to the dynamic-schema
 * builder: message definitions holding field entries and nested message and
 * enum definitions. A `MessageDef` under construction plays the part of
 * `MessageDefinition.Builder`.
 */
module Definitions {
  import opened Wrappers
  import opened Descriptors

  /** One `addField(label, type, name, number, default, …)` call; map-entry fields carry no label. */
  datatype FieldEntry = FieldEntry(
    fieldLabel: Option<string>,
    typeName: string,
    name: string,
    number: int,
    defaultValue: Option<string>)

  datatype EnumDef = EnumDef(name: string, values: seq<EnumValue>)

  datatype MessageDef = MessageDef(
    name: string,
    fields: seq<FieldEntry>,
    messages: seq<MessageDef>,
    enums: seq<EnumDef>,
    mapEntry: bool)

  /** `MessageDefinition.Builder.containsMessage`: a nested message of that name was added. */
  predicate ContainsMessage(d: MessageDef, n: string)
  {
    exists k :: 0 <= k < |d.messages| && d.messages[k].name == n
  }

  /** `MessageDefinition.Builder.containsEnum`: a nested enum of that name was added. */
  predicate ContainsEnum(d: MessageDef, n: string)
  {
    exists k :: 0 <= k < |d.enums| && d.enums[k].name == n
  }

  function EntryNames(es: seq<FieldEntry>): (r: seq<string>)
  {
    seq(|es|, j requires 0 <= j < |es| => es[j].name)
  }

  /** A field entry's type word is a built-in scalar or names a type nested in the same message. */
  ghost predicate Resolves(d: MessageDef, e: FieldEntry)
  {
    IsScalarName(e.typeName) || ContainsMessage(d, e.typeName) || ContainsEnum(d, e.typeName)
  }

  /**
   * The scope rules of one message definition: nested message names are unique,
   * nested enum names are unique, and every field entry's type resolves.
   */
  ghost predicate LevelScoped(d: MessageDef)
  {
    && (forall i, j :: 0 <= i < j < |d.messages| ==> d.messages[i].name != d.messages[j].name)
    && (forall i, j :: 0 <= i < j < |d.enums| ==> d.enums[i].name != d.enums[j].name)
    && (forall e :: e in d.fields ==> Resolves(d, e))
  }

  /** The scope rules at every level of a definition tree: what the schema compiler needs. */
  ghost predicate WellScoped(d: MessageDef)
    decreases d
  {
    LevelScoped(d) && forall m :: m in d.messages ==> WellScoped(m)
  }
}
