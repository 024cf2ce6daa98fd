// The schemas of the generated messages this model follows, field by field.
module Messages {
  import opened Codec

  // PlayerExtra (level, exp, maxExp) and ItemInfo (itemId, count, slot) have the same fields.
  function TripleSchema(): Schema {
    Schema([Number(1, Int32), Number(2, Int32), Number(3, Int32)])
  }

  function MonsterExtraSchema(): Schema {
    Schema([Number(1, Int32)])
  }

  function BuffDataSchema(): Schema {
    Schema([Number(1, UInt64), Number(2, Float32), Packed(3)])
  }

  function ExtraCases(): seq<Case> {
    [Case(100, TripleSchema()), Case(101, MonsterExtraSchema())]
  }

  function ObjectInfoSchema(): Schema {
    Schema([Number(1, UInt64), Number(2, Enum), Number(3, Enum), Number(4, Enum), Text(5),
            Number(6, Int32), Number(7, Int32), Number(8, Int32), Number(9, Int32),
            Number(10, Int32), Number(11, Int32), Choice(ExtraCases())])
  }

  function TestSchema(): Schema {
    Schema([Number(1, UInt64), Number(2, UInt32), Number(3, UInt32), Repeated(4, BuffDataSchema())])
  }

  function AddObjectSchema(): Schema {
    Schema([Repeated(1, ObjectInfoSchema())])
  }

  function RemoveObjectSchema(): Schema {
    Schema([Packed(1)])
  }

  function InventoryDataSchema(): Schema {
    Schema([Repeated(1, TripleSchema()), Choice([Case(2, TripleSchema())]),
            Choice([Case(3, TripleSchema())]), Choice([Case(4, TripleSchema())])])
  }

  // SS_RelayChat and SS_BroadcastChat have the same fields.
  function ChatSchema(): Schema {
    Schema([Text(1), Number(2, Enum), Text(3), Text(4), Number(5, UInt64)])
  }

  lemma LeafSchemasOk()
    ensures SchemaOk(TripleSchema()) && SchemaOk(MonsterExtraSchema())
  {}

  lemma FlatSchemasOk()
    ensures SchemaOk(BuffDataSchema()) && SchemaOk(RemoveObjectSchema()) && SchemaOk(ChatSchema())
  {}

  lemma TestSchemaOk()
    ensures SchemaOk(TestSchema()) && SchemaOk(BuffDataSchema())
  {
    FlatSchemasOk();
  }

  lemma InventoryDataSchemaOk()
    ensures SchemaOk(InventoryDataSchema()) && SchemaOk(TripleSchema())
  {
    LeafSchemasOk();
  }

  lemma {:induction false} ObjectInfoSchemaOk()
    ensures SchemaOk(ObjectInfoSchema()) && SchemaOk(TripleSchema()) && SchemaOk(MonsterExtraSchema())
  {
    LeafSchemasOk();
    ExtraOk();
    var slots := ObjectInfoSchema().slots;
    forall i | 0 <= i < |slots|
      ensures SlotOk(slots[i]) && Low(slots[i]) == High(slots[i]) - (if i == 11 then 1 else 0)
      ensures Low(slots[i]) == if i == 11 then 100 else i + 1
    {}
  }

  lemma ExtraOk()
    ensures SlotOk(Choice(ExtraCases()))
  {
    LeafSchemasOk();
  }

  lemma {:induction false} AddObjectSchemaOk()
    ensures SchemaOk(AddObjectSchema()) && SchemaOk(ObjectInfoSchema())
  {
    ObjectInfoSchemaOk();
  }
}
