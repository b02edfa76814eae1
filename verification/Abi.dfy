/** ABI definitions as the chain publishes them (the interfaces of chain/Abi.ts). */
module Abi {
  import opened Bytes
  import opened Types

  datatype TypeDef = TypeDef(newTypeName: Text, typ: Text)

  datatype FieldDef = FieldDef(name: Text, typ: Text)

  datatype StructDef = StructDef(name: Text, base: Text, fields: seq<FieldDef>)

  /** A packed account or action name. */
  type PackedName = n: nat | n < 0x1_0000_0000_0000_0000

  datatype ActionDef = ActionDef(name: PackedName, typ: Text, ricardianContract: Text)

  /** An omitted table id is `None`. */
  datatype IndexDef = IndexDef(name: Text, keyType: Text, tableId: Option<int>)

  datatype TableDef = TableDef(
    name: Text, indexType: Text, keyNames: seq<Text>, keyTypes: seq<Text>, typ: Text,
    tableId: Option<int>, secondaryIndexes: Option<seq<IndexDef>>)

  datatype ClauseDef = ClauseDef(id: Text, body: Text)

  datatype VariantDef = VariantDef(name: Text, types: seq<Text>)

  datatype ActionResultDef = ActionResultDef(name: PackedName, resultType: Text)

  datatype EnumDef = EnumDef(name: Text, typ: Text, values: seq<EnumValue>)

  datatype ABI = ABI(
    version: Text, types: seq<TypeDef>, structs: seq<StructDef>, actions: seq<ActionDef>,
    tables: seq<TableDef>, clauses: seq<ClauseDef>, variants: seq<VariantDef>,
    actionResults: seq<ActionResultDef>, enums: seq<EnumDef>)
}
