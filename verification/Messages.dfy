/**
 * goog.proto2.Message and goog.proto2.PbLiteSerializer as objects: methods that update the raw
 * store and the memo in place and walk over fields and arrays, each tied to the function that
 * says what it computes.
 */
module Messages {
  import opened ProtoMessages
  import opened PbLite
  import opened MessageStores
  import opened JsArrays

  class PbLiteSerializer {
    const schema: Schema
    var zeroIndexing: bool

    constructor (schema: Schema)
      ensures this.schema == schema && !zeroIndexing
    {
      this.schema := schema;
      zeroIndexing := false;
    }

    method SetZeroIndexed(zeroIndexing: bool)
      modifies this
      ensures this.zeroIndexing == zeroIndexing
    {
      this.zeroIndexing := zeroIndexing;
    }

    method GetDeserializedValue(f: Field, value: Val) returns (v: Val)
      ensures v == DecodedItem(schema, zeroIndexing, f, value)
    {
      if f.kind.Boolean? {
        return Bool(value == Num(1));
      }
      if f.kind.Composite? {
        if value.Sparse? {
          return Msg(Decoded(schema, zeroIndexing, f.kind.typ, value));
        }
        return value;
      }
      if !f.convert {
        return value;
      }
      if f.kind.Text? {
        if value.Num? {
          return Str(Decimal(value.n));
        }
      } else if f.kind.Number? {
        if value.Str? && IsInteger(value.s) {
          return Num(NumberOf(value.s));
        }
      }
      return value;
    }

    /** None when the field is repeated and the value is no array. */
    method DeserializeField(f: Field, value: Val) returns (v: Option<Val>)
      requires Present(value)
      ensures v == if f.repeated && !value.List? then None else Some(DecodedValue(schema, zeroIndexing, f, value))
    {
      if f.repeated {
        if !value.List? {
          return None;
        }
        var data: seq<Val> := [];
        var i := 0;
        while i < |value.items|
          invariant 0 <= i == |data| <= |value.items|
          invariant forall j :: 0 <= j < i ==> data[j] == DecodedItem(schema, zeroIndexing, f, value.items[j])
        {
          var item := GetDeserializedValue(f, value.items[i]);
          data := data + [item];
          i := i + 1;
        }
        assert data == DecodedValue(schema, zeroIndexing, f, value).items;
        return Some(List(data));
      } else {
        var item := GetDeserializedValue(f, value);
        return Some(item);
      }
    }

    method GetSerializedValue(kind: Kind, value: Val) returns (v: Val)
      requires ItemOk(schema, kind, value)
      ensures v == EncodedItem(schema, zeroIndexing, kind, value)
      decreases value, 2
    {
      if kind.Boolean? {
        return Num(if value.b then 1 else 0);
      }
      if kind.Composite? {
        var serialized := Serialize(value.content);
        return Sparse(serialized);
      }
      return value;
    }

    method SerializeField(f: Field, value: Val) returns (v: Val)
      requires ValueOk(schema, f, value)
      ensures v == EncodedValue(schema, zeroIndexing, f, value)
      decreases value, 3
    {
      if f.repeated {
        var items: seq<Val> := [];
        var j := 0;
        while j < |value.items|
          invariant 0 <= j == |items| <= |value.items|
          invariant items == EncodedItems(schema, zeroIndexing, f, value)[..j]
        {
          var item := GetSerializedValue(f.kind, value.items[j]);
          items := items + [item];
          j := j + 1;
        }
        return List(items);
      } else {
        assert ItemOk(schema, f.kind, value);
        v := GetSerializedValue(f.kind, value);
      }
    }

    /** Adds the known fields that are present. */
    method SerializeKnown(message: Content) returns (serialized: map<int, Val>, ghost written: set<Tag>)
      requires WellTyped(schema, message)
      ensures forall t :: t in written <==> t in schema[message.typ] && Has(message.fields, t)
      ensures written <= message.fields.Keys && serialized == EncodedPart(schema, zeroIndexing, message, written)
      decreases message, 0
    {
      var d, shift := schema[message.typ], Shift(zeroIndexing);
      NothingWritten(schema, zeroIndexing, message);
      hide EncodedPart, EncodedField, EncodedValue;
      written := {};
      serialized := map[];
      var fields := d.Keys;
      while fields != {}
        invariant fields <= d.Keys
        invariant forall t :: t in written <==> t in d && t !in fields && Has(message.fields, t)
        invariant written <= message.fields.Keys && serialized == EncodedPart(schema, zeroIndexing, message, written)
      {
        var tag := NextKey(fields);
        fields := fields - {tag};
        if Has(message.fields, tag) {
          var v := SerializeField(d[tag], message.fields[tag]);
          KnownGrows(schema, zeroIndexing, message, written, tag);
          serialized := serialized[tag - shift := v];
          written := written + {tag};
        }
      }
    }

    /** forEachUnknown: adds the unknown fields as they are. */
    method SerializeUnknown(message: Content, known: map<int, Val>, ghost before: set<Tag>)
      returns (serialized: map<int, Val>, ghost written: set<Tag>)
      requires WellTyped(schema, message) && before <= message.fields.Keys
      requires known == EncodedPart(schema, zeroIndexing, message, before)
      ensures written == before + (message.fields.Keys - schema[message.typ].Keys)
      ensures written <= message.fields.Keys && serialized == EncodedPart(schema, zeroIndexing, message, written)
    {
      var d, shift := schema[message.typ], Shift(zeroIndexing);
      hide EncodedPart, EncodedField, EncodedValue, WellTyped;
      serialized, written := known, before;
      var keys := message.fields.Keys;
      while keys != {}
        invariant keys <= message.fields.Keys
        invariant written == before + (message.fields.Keys - keys - d.Keys)
        invariant written <= message.fields.Keys && serialized == EncodedPart(schema, zeroIndexing, message, written)
      {
        var tag := NextKey(keys);
        keys := keys - {tag};
        if tag !in d {
          UnknownGrows(schema, zeroIndexing, message, written, tag);
          serialized := serialized[tag - shift := message.fields[tag]];
          written := written + {tag};
        }
      }
    }

    method Serialize(message: Content) returns (serialized: map<int, Val>)
      requires WellTyped(schema, message)
      ensures serialized == Encoded(schema, zeroIndexing, message)
      decreases message, 1
    {
      ghost var written;
      serialized, written := SerializeKnown(message);
      serialized, written := SerializeUnknown(message, serialized, written);
      assert written == Sent(schema, message);
      AllWritten(schema, zeroIndexing, message);
    }

    method Deserialize(typ: TypeName, data: map<int, Val>) returns (message: Message)
      ensures fresh(message) && message.State() == Deserialized(schema, zeroIndexing, typ, data)
    {
      var toConvert := data;
      if zeroIndexing {
        toConvert := map[];
        var keys := data.Keys;
        while keys != {}
          invariant keys <= data.Keys
          invariant forall t :: t in toConvert <==> t - 1 in data && t - 1 !in keys
          invariant forall t :: t in toConvert ==> t - 1 in data && toConvert[t] == data[t - 1]
        {
          var key := NextKey(keys);
          keys := keys - {key};
          toConvert := toConvert[key + 1 := data[key]];
        }
      }
      message := new Message(schema, typ);
      message.InitializeForLazyDeserializer(zeroIndexing, toConvert);
      assert message.State().values == Deserialized(schema, zeroIndexing, typ, data).values;
    }
  }

  class Message {
    const schema: Schema
    const typ: TypeName
    var values: map<Tag, Val>
    var lazy: bool
    var zeroIndexing: bool
    var deserializedFields: map<Tag, Val>

    ghost function State(): Store
      reads this
    {
      Store(schema, typ, values, if lazy then Some(deserializedFields) else None, zeroIndexing)
    }

    constructor (schema: Schema, typ: TypeName)
      ensures State() == Store(schema, typ, map[], None, false)
    {
      this.schema := schema;
      this.typ := typ;
      values := map[];
      lazy := false;
      zeroIndexing := false;
      deserializedFields := map[];
    }

    method InitializeForLazyDeserializer(zero: bool, data: map<Tag, Val>)
      modifies this
      ensures State() == Store(schema, typ, data, Some(map[]), zero)
    {
      lazy := true;
      zeroIndexing := zero;
      values := data;
      deserializedFields := map[];
    }

    /** has$Value of a known field */
    method HasValue(tag: Tag) returns (has: bool)
      ensures has == Has(values, tag)
    {
      return tag in values && values[tag] != Undef && values[tag] != Null;
    }

    method GetValueForField(tag: Tag) returns (value: Option<Val>)
      requires tag in Fields(schema, typ)
      modifies this`deserializedFields
      ensures Read(value, State()) == ReadField(old(State()), tag)
    {
      var f := Fields(schema, typ)[tag];
      if tag !in values || !Present(values[tag]) {
        return Some(Null);
      }
      if lazy {
        if tag !in deserializedFields {
          var serializer := new PbLiteSerializer(schema);
          serializer.SetZeroIndexed(zeroIndexing);
          value := serializer.DeserializeField(f, values[tag]);
          if value.Some? {
            deserializedFields := deserializedFields[tag := value.value];
          }
          return;
        }
        return Some(deserializedFields[tag]);
      }
      return Some(values[tag]);
    }

    method GetValue_(tag: Tag, index: int) returns (answer: Answer)
      modifies this`deserializedFields
      ensures Result(answer, State()) == Do(old(State()), Get(tag, index))
    {
      if tag !in Fields(schema, typ) {
        return Failed;
      }
      var value := GetValueForField(tag);
      if value.None? {
        return Failed;
      }
      if Fields(schema, typ)[tag].repeated {
        if !value.value.List? || index < 0 || index >= |value.value.items| {
          return Failed;
        }
        return Value(value.value.items[index]);
      }
      if IsArray(value.value) {
        return Failed;
      }
      return Value(value.value);
    }

    method GetValueOrDefault(tag: Tag, index: int) returns (answer: Answer)
      modifies this`deserializedFields
      ensures Result(answer, State()) == Do(old(State()), GetOrDefault(tag, index))
    {
      if tag !in Fields(schema, typ) {
        return Failed;
      }
      var has := HasValue(tag);
      if !has {
        return Value(Fields(schema, typ)[tag].fallback);
      }
      answer := GetValue_(tag, index);
    }

    method ArrayValues_(tag: Tag) returns (answer: Answer)
      modifies this`deserializedFields
      ensures Result(answer, State()) == Do(old(State()), ArrayOf(tag))
    {
      if tag !in Fields(schema, typ) || !Fields(schema, typ)[tag].repeated {
        return Failed;
      }
      var value := GetValueForField(tag);
      if value == Some(Null) {
        return Value(List([]));
      }
      if value.None? || !value.value.List? {
        return Failed;
      }
      return Value(value.value);
    }

    method CountValues_(tag: Tag) returns (answer: Answer)
      ensures Result(answer, State()) == Do(State(), CountOf(tag))
    {
      if tag !in Fields(schema, typ) {
        return Failed;
      }
      var has := HasValue(tag);
      if Fields(schema, typ)[tag].repeated {
        if has && !values[tag].List? {
          return Failed;
        }
        return Count(if has then |values[tag].items| else 0);
      }
      return Count(if has then 1 else 0);
    }

    method SetValue_(tag: Tag, value: Val) returns (answer: Answer)
      modifies this`values, this`deserializedFields
      ensures Result(answer, State()) == Do(old(State()), Set(tag, value))
    {
      if tag !in Fields(schema, typ) || Fields(schema, typ)[tag].repeated || !TypeMatches(Fields(schema, typ)[tag].kind, value) {
        return Failed;
      }
      values := values[tag := value];
      if lazy {
        deserializedFields := deserializedFields[tag := value];
      }
      return Done;
    }

    method AddValue_(tag: Tag, value: Val) returns (answer: Answer)
      modifies this`values, this`deserializedFields
      ensures Result(answer, State()) == Do(old(State()), Add(tag, value))
    {
      if tag !in Fields(schema, typ) || !Fields(schema, typ)[tag].repeated || !TypeMatches(Fields(schema, typ)[tag].kind, value) {
        return Failed;
      }
      if tag in values && !Falsy(values[tag]) && !values[tag].List? {
        return Failed;
      }
      ghost var before := values;
      if tag !in values || Falsy(values[tag]) {
        values := values[tag := List([])];
      }
      values := values[tag := List(values[tag].items + [value])];
      assert values == before[tag := values[tag]];
      if lazy {
        deserializedFields := deserializedFields - {tag};
      }
      return Done;
    }

    method ClearField(tag: Tag) returns (answer: Answer)
      modifies this`values, this`deserializedFields
      ensures Result(answer, State()) == Do(old(State()), Clear(tag))
    {
      if tag !in Fields(schema, typ) {
        return Failed;
      }
      values := values - {tag};
      if lazy {
        deserializedFields := deserializedFields - {tag};
      }
      return Done;
    }

    method SetUnknown_(tag: Tag, value: Val) returns (answer: Answer)
      modifies this`values, this`deserializedFields
      ensures Result(answer, State()) == Do(old(State()), SetUnknown(tag, value))
    {
      if tag in Fields(schema, typ) || tag < 1 || value == Null {
        return Failed;
      }
      values := values[tag := value];
      if lazy {
        deserializedFields := deserializedFields - {tag};
      }
      return Done;
    }
  }
}
