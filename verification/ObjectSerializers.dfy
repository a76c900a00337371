/**
 * The object serializer of javascript/phonenumbernormalizer/js/objectserializer.js: messages as
 * plain objects whose keys are tags, or names for the known fields.
 */
module ObjectSerializers {
  import opened ProtoMessages
  import opened PbLite
  import opened MessageStores
  import opened MessageEquality
  import opened JsArrays
  import Messages

  /** The order in which the properties of a serialized message are enumerated. */
  type Order = Content -> seq<Tag>

  function Tags(tags: seq<Tag>): set<Tag> {
    set t | t in tags
  }

  ghost predicate Distinct(tags: seq<Tag>) {
    forall i, j :: 0 <= i < j < |tags| ==> tags[i] != tags[j]
  }

  /** The tags are those serialize writes, each once. */
  ghost predicate Lists(tags: seq<Tag>, s: Schema, c: Content)
    requires c.typ in s
  {
    Distinct(tags) && (forall t :: t in tags <==> t in Sent(s, c))
  }

  ghost predicate Enumerates(s: Schema, order: Order) {
    forall c: Content :: c.typ in s ==> Lists(order(c), s, c)
  }

  // ----- writing -----

  /** The key of a known field; a name of digits only would be read as a tag. */
  function KeyOf(named: bool, d: Descriptor, t: Tag): Key {
    if !named || t !in d then ByTag(t)
    else if AllDigits(d[t].name) then ByTag(NumberOfDigits(d[t].name))
    else ByName(d[t].name)
  }

  function WrittenItem(s: Schema, named: bool, order: Order, kind: Kind, v: Val): Val
    requires Enumerates(s, order) && ItemOk(s, kind, v)
    decreases v, 1
  {
    if kind.Composite? then Object(Serialized(s, named, order, v.content)) else v
  }

  function WrittenItems(s: Schema, named: bool, order: Order, f: Field, v: Val): (items: seq<Val>)
    requires Enumerates(s, order) && f.repeated && ValueOk(s, f, v)
    ensures |items| == |v.items|
    decreases v, 2
  {
    seq(|v.items|, i requires 0 <= i < |v.items| => WrittenItem(s, named, order, f.kind, v.items[i]))
  }

  function WrittenValue(s: Schema, named: bool, order: Order, f: Field, v: Val): Val
    requires Enumerates(s, order) && ValueOk(s, f, v)
    decreases v, 3
  {
    if f.repeated then List(WrittenItems(s, named, order, f, v))
    else
      assert ItemOk(s, f.kind, v);
      WrittenItem(s, named, order, f.kind, v)
  }

  function WrittenMember(s: Schema, named: bool, order: Order, c: Content, t: Tag): Member
    requires Enumerates(s, order) && WellTyped(s, c) && t in c.fields
    decreases c, 0, 0
  {
    Member(KeyOf(named, s[c.typ], t),
           if t in s[c.typ] then WrittenValue(s, named, order, s[c.typ][t], c.fields[t]) else c.fields[t])
  }

  lemma TagsAreFields(s: Schema, c: Content, tags: seq<Tag>)
    requires c.typ in s && Lists(tags, s, c)
    ensures forall i :: 0 <= i < |tags| ==> tags[i] in c.fields
  {
    forall i | 0 <= i < |tags| ensures tags[i] in c.fields {
      assert tags[i] in tags;
      assert tags[i] in Sent(s, c);
    }
  }

  /** serialize: the known fields that are present, and every unknown field. */
  function Serialized(s: Schema, named: bool, order: Order, c: Content): (members: seq<Member>)
    requires Enumerates(s, order) && WellTyped(s, c)
    ensures |members| == |order(c)|
    decreases c, 0
  {
    var tags := order(c);
    assert Lists(tags, s, c);
    TagsAreFields(s, c, tags);
    seq(|tags|, i requires 0 <= i < |tags| => WrittenMember(s, named, order, c, tags[i]))
  }

  /** A sub-message is an object, anything else itself. */
  ghost predicate ItemWritten(s: Schema, named: bool, order: Order, v: Val, w: Val)
    requires Enumerates(s, order)
  {
    if v.Msg? then WellTyped(s, v.content) && w == Object(Serialized(s, named, order, v.content)) else w == v
  }

  ghost predicate ValueWritten(s: Schema, named: bool, order: Order, v: Val, w: Val)
    requires Enumerates(s, order)
  {
    if v.List? then
      w.List? && |w.items| == |v.items| && forall i :: 0 <= i < |w.items| ==> ItemWritten(s, named, order, v.items[i], w.items[i])
    else ItemWritten(s, named, order, v, w)
  }

  lemma ValueIsWritten(s: Schema, named: bool, order: Order, f: Field, v: Val)
    requires Enumerates(s, order) && ValueOk(s, f, v)
    ensures ValueWritten(s, named, order, v, WrittenValue(s, named, order, f, v))
  {
    hide Serialized, WellTyped, Enumerates;
    if f.repeated {
      forall i | 0 <= i < |v.items| ensures ItemWritten(s, named, order, v.items[i], WrittenItems(s, named, order, f, v)[i]) {
        assert ItemOk(s, f.kind, v.items[i]);
        assert WrittenItems(s, named, order, f, v)[i] == WrittenItem(s, named, order, f.kind, v.items[i]);
      }
    } else {
      assert ItemOk(s, f.kind, v);
    }
  }

  /**
   * The properties of the object that serialize gives, in their order: in TAG mode every key is the tag;
   * in NAME mode the key of a known field is its name, and that of an unknown one its tag. The values of
   * known fields are written item by item, those of unknown ones as they are.
   */
  lemma WrittenForm(s: Schema, named: bool, order: Order, c: Content, i: nat)
    requires Enumerates(s, order) && WellTyped(s, c) && i < |order(c)|
    ensures
      var t, d, m := order(c)[i], s[c.typ], Serialized(s, named, order, c)[i];
      && t in c.fields && (t in d ==> Present(c.fields[t]))
      && (!named || t !in d ==> m.key == ByTag(t))
      && (named && t in d && !AllDigits(d[t].name) ==> m.key == ByName(d[t].name))
      && (if t in d then ValueWritten(s, named, order, c.fields[t], m.value) else m.value == c.fields[t])
  {
    var t := order(c)[i];
    assert Lists(order(c), s, c);
    assert t in order(c);
    TagsAreFields(s, c, order(c));
    assert Serialized(s, named, order, c)[i] == WrittenMember(s, named, order, c, t);
    if t in s[c.typ] { ValueIsWritten(s, named, order, s[c.typ][t], c.fields[t]); }
    hide Serialized, ValueWritten, WrittenValue;
  }

  // ----- reading -----

  /** What a call of deserializeTo leaves: the message, and whether every assertion held. */
  datatype Loaded = Loaded(ok: bool, store: Store)

  function After(r: Result): Loaded {
    Loaded(!r.answer.Failed?, r.store)
  }

  /** The field a key names, None when there is none; in TAG mode a key that is no tag is an error. */
  datatype Found = Known(t: Tag) | Unknown(t: Tag) | NoField

  ghost function FindField(named: bool, d: Descriptor, k: Key): Found {
    match k
    case ByTag(t) => if t in d then Known(t) else Unknown(t)
    case ByName(n) =>
      if named && exists t :: t in d && d[t].name == n then
        var t :| t in d && d[t].name == n;
        Known(t)
      else NoField
  }

  /** getDeserializedValue of Serializer: sub-messages are read, 64-bit numbers converted. */
  ghost function ReadItem(s: Schema, named: bool, f: Field, raw: Val): Option<Val>
    decreases raw, if raw.Object? then |raw.members| + 1 else 0
  {
    match f.kind
    case Composite(typ) =>
      if raw.Msg? then Some(raw)
      else if !raw.Object? then None
      else
        var r := LoadAll(s, named, Store(s, typ, map[], None, false), raw, 0);
        if r.ok then Some(Msg(Content(typ, r.store.values))) else None
    case Boolean => Some(raw)
    case _ => Some(DecodedItem(s, false, f, raw))
  }

  /** The loop that adds the items of a list. */
  ghost function LoadItems(s: Schema, named: bool, st: Store, f: Field, t: Tag, list: Val, i: nat): Loaded
    requires list.List? && i <= |list.items|
    decreases list, |list.items| - i
  {
    if i == |list.items| then Loaded(true, st)
    else
      var v := ReadItem(s, named, f, list.items[i]);
      if v.None? then Loaded(false, st)
      else
        var r := AddValue(st, t, v.value);
        if r.answer.Failed? then Loaded(false, r.store) else LoadItems(s, named, r.store, f, t, list, i + 1)
  }

  ghost function LoadMember(s: Schema, named: bool, st: Store, m: Member): Loaded
    decreases m, 0
  {
    match FindField(named, st.Descriptor(), m.key)
    case NoField => Loaded(false, st)
    case Unknown(t) => After(Do(st, SetUnknown(t, m.value)))
    case Known(t) =>
      var f := Fields(st.schema, st.typ);
      if t !in f then Loaded(false, st)
      else if f[t].repeated then
        if m.value.List? then LoadItems(s, named, st, f[t], t, m.value, 0) else Loaded(false, st)
      else if IsArray(m.value) then Loaded(false, st)
      else
        var v := ReadItem(s, named, f[t], m.value);
        if v.None? then Loaded(false, st) else After(SetValue(st, t, v.value))
  }

  /** deserializeTo: the loop over the properties. */
  ghost function LoadAll(s: Schema, named: bool, st: Store, data: Val, i: nat): Loaded
    requires data.Object? && i <= |data.members|
    decreases data, |data.members| - i
  {
    if i == |data.members| then Loaded(true, st)
    else
      var r := LoadMember(s, named, st, data.members[i]);
      if r.ok then LoadAll(s, named, r.store, data, i + 1) else r
  }

  // ----- the round trip -----

  predicate DistinctNames(d: Descriptor) {
    forall t, u :: t in d && u in d && d[t].name == d[u].name ==> t == u
  }

  /** Within every message type names are distinct and none consists of digits only. */
  ghost predicate GoodNames(s: Schema) {
    forall typ :: typ in s ==>
      && (forall t :: t in s[typ] ==> !AllDigits(s[typ][t].name))
      && DistinctNames(s[typ])
  }

  /** The unknown fields, at every depth, are ones setUnknown accepts. */
  predicate GoodUnknown(s: Schema, c: Content)
    requires WellTyped(s, c)
    decreases c, 0
  {
    forall t :: t in c.fields ==>
      if t in s[c.typ] then GoodValue(s, s[c.typ][t], c.fields[t]) else t >= 1 && c.fields[t] != Null
  }

  predicate GoodItem(s: Schema, kind: Kind, v: Val)
    requires ItemOk(s, kind, v)
    decreases v, 1
  {
    v.Msg? ==> GoodUnknown(s, v.content)
  }

  predicate GoodValue(s: Schema, f: Field, v: Val)
    requires ValueOk(s, f, v)
    decreases v, 2
  {
    if f.repeated then forall i :: 0 <= i < |v.items| ==> GoodItem(s, f.kind, v.items[i])
    else
      assert ItemOk(s, f.kind, v);
      GoodItem(s, f.kind, v)
  }

  /** The message without its empty lists, at every depth. */
  function Filled(s: Schema, c: Content): (r: Content)
    requires WellTyped(s, c)
    ensures r.typ == c.typ
    decreases c, 0
  {
    Content(c.typ, map t | t in c.fields && !(t in s[c.typ] && s[c.typ][t].repeated && c.fields[t] == List([])) ::
      if t in s[c.typ] then FilledValue(s, s[c.typ][t], c.fields[t]) else c.fields[t])
  }

  function FilledItem(s: Schema, kind: Kind, v: Val): Val
    requires ItemOk(s, kind, v)
    decreases v, 1
  {
    if v.Msg? then Msg(Filled(s, v.content)) else v
  }

  function FilledItems(s: Schema, f: Field, v: Val): (items: seq<Val>)
    requires f.repeated && ValueOk(s, f, v)
    ensures |items| == |v.items|
    decreases v, 2
  {
    seq(|v.items|, i requires 0 <= i < |v.items| => FilledItem(s, f.kind, v.items[i]))
  }

  function FilledValue(s: Schema, f: Field, v: Val): Val
    requires ValueOk(s, f, v)
    decreases v, 3
  {
    if f.repeated then List(FilledItems(s, f, v))
    else
      assert ItemOk(s, f.kind, v);
      FilledItem(s, f.kind, v)
  }

  // ----- Filled changes nothing exactly when no present list is empty -----

  lemma {:induction false} FilledItemSame(s: Schema, kind: Kind, v: Val)
    requires ItemOk(s, kind, v)
    ensures FilledItem(s, kind, v) == v <==> NoEmptyItem(s, kind, v)
    decreases v, 1
  {
    if v.Msg? { FilledSame(s, v.content); }
  }

  lemma {:induction false} FilledValueSame(s: Schema, f: Field, v: Val)
    requires ValueOk(s, f, v) && !(f.repeated && v == List([]))
    ensures FilledValue(s, f, v) == v <==> NoEmptyValue(s, f, v)
    decreases v, 2
  {
    if f.repeated {
      var items := FilledItems(s, f, v);
      forall i | 0 <= i < |v.items| ensures items[i] == v.items[i] <==> NoEmptyItem(s, f.kind, v.items[i]) {
        FilledItemSame(s, f.kind, v.items[i]);
      }
    } else {
      assert ItemOk(s, f.kind, v);
      FilledItemSame(s, f.kind, v);
    }
  }

  lemma {:induction false} FilledSame(s: Schema, c: Content)
    requires WellTyped(s, c)
    ensures Filled(s, c) == c <==> NoEmptyList(s, c)
    decreases c, 0
  {
    var r, d := Filled(s, c).fields, s[c.typ];
    forall t ensures Lookup(r, t) == Lookup(c.fields, t) <==> (t in c.fields && t in d ==> NoEmptyValue(s, d[t], c.fields[t])) {
      if t in c.fields && t in d && !(d[t].repeated && c.fields[t] == List([])) {
        FilledValueSame(s, d[t], c.fields[t]);
      }
    }
    if NoEmptyList(s, c) { SameFields(r, c.fields); }
  }

  // ----- what is written is read back, filled -----

  /** Some of the fields of the filled message: what has been loaded after some of the tags. */
  function Part(s: Schema, c: Content, done: set<Tag>): map<Tag, Val>
    requires WellTyped(s, c)
  {
    var r := Filled(s, c).fields;
    map t | t in r && t in done :: r[t]
  }

  lemma FindsKnown(s: Schema, named: bool, typ: TypeName, t: Tag)
    requires typ in s && t in s[typ] && (named ==> GoodNames(s))
    ensures FindField(named, s[typ], KeyOf(named, s[typ], t)) == Found.Known(t)
  {
    if named { assert s[typ][t].name == s[typ][t].name; }
  }

  lemma {:induction false} ItemReads(s: Schema, named: bool, order: Order, f: Field, v: Val)
    requires Enumerates(s, order) && (named ==> GoodNames(s)) && ItemOk(s, f.kind, v) && GoodItem(s, f.kind, v)
    ensures ReadItem(s, named, f, WrittenItem(s, named, order, f.kind, v)) == Some(FilledItem(s, f.kind, v))
    ensures TypeMatches(f.kind, FilledItem(s, f.kind, v)) && !IsArray(WrittenItem(s, named, order, f.kind, v))
    decreases v, 1
  {
    if f.kind.Composite? { RoundTrip(s, named, order, v.content); }
  }

  lemma ItemAdds(st: Store, t: Tag, items: seq<Val>, i: nat)
    requires st.memo.None? && t in st.Descriptor() && st.Descriptor()[t].repeated
    requires i < |items| && TypeMatches(st.Descriptor()[t].kind, items[i])
    requires if i == 0 then t !in st.values else t in st.values && st.values[t] == List(items[..i])
    ensures AddValue(st, t, items[i]) == Result(Done, st.(values := st.values[t := List(items[..i + 1])]))
  {
    assert items[..i + 1] == items[..i] + [items[i]];
  }

  /** Adding the items from i on to those already there. */
  lemma {:induction false} ItemsRead(s: Schema, named: bool, order: Order, st: Store, t: Tag, v: Val, i: nat)
    requires Enumerates(s, order) && (named ==> GoodNames(s)) && st.schema == s && st.typ in s && st.memo.None?
    requires t in s[st.typ] && s[st.typ][t].repeated && ValueOk(s, s[st.typ][t], v) && GoodValue(s, s[st.typ][t], v)
    requires i <= |v.items|
    requires if i == 0 then t !in st.values else t in st.values && st.values[t] == List(FilledItems(s, s[st.typ][t], v)[..i])
    ensures
      var f := s[st.typ][t];
      LoadItems(s, named, st, f, t, List(WrittenItems(s, named, order, f, v)), i) ==
        Loaded(true, if v.items == [] then st else st.(values := st.values[t := List(FilledItems(s, f, v))]))
    decreases v, 2, |v.items| - i
  {
    var f := s[st.typ][t];
    var filled := FilledItems(s, f, v);
    if i == |v.items| {
      assert filled[..i] == filled;
      assert i > 0 ==> st.values == st.values[t := List(filled)];
    } else {
      ItemReads(s, named, order, f, v.items[i]);
      var next := AddValue(st, t, filled[i]).store;
      ItemAdds(st, t, filled, i);
      hide FilledItem, WrittenItem, ReadItem, GoodItem, GoodNames, TypeMatches;
      ItemsRead(s, named, order, next, t, v, i + 1);
      assert next.values[t := List(filled)] == st.values[t := List(filled)];
    }
  }

  lemma {:induction false} MemberReads(s: Schema, named: bool, order: Order, c: Content, done: set<Tag>, t: Tag)
    requires Enumerates(s, order) && (named ==> GoodNames(s)) && WellTyped(s, c) && GoodUnknown(s, c)
    requires t in Sent(s, c) && t !in done
    ensures LoadMember(s, named, Store(s, c.typ, Part(s, c, done), None, false), WrittenMember(s, named, order, c, t)) ==
      Loaded(true, Store(s, c.typ, Part(s, c, done + {t}), None, false))
    decreases c, 1
  {
    var st := Store(s, c.typ, Part(s, c, done), None, false);
    var m := WrittenMember(s, named, order, c, t);
    if t in s[c.typ] {
      var f, v := s[c.typ][t], c.fields[t];
      FindsKnown(s, named, c.typ, t);
      if f.repeated {
        ItemsRead(s, named, order, st, t, v, 0);
        assert v.items == [] <==> v == List([]);
      } else {
        assert ItemOk(s, f.kind, v);
        ItemReads(s, named, order, f, v);
      }
    }
    PartGrows(s, c, done, t);
  }

  lemma PartGrows(s: Schema, c: Content, done: set<Tag>, t: Tag)
    requires WellTyped(s, c) && t in c.fields && t !in done
    ensures Part(s, c, done + {t}) ==
      if t in s[c.typ] && s[c.typ][t].repeated && c.fields[t] == List([]) then Part(s, c, done)
      else Part(s, c, done)[t := if t in s[c.typ] then FilledValue(s, s[c.typ][t], c.fields[t]) else c.fields[t]]
  {
  }

  lemma {:induction false} MembersRead(s: Schema, named: bool, order: Order, c: Content, i: nat)
    requires Enumerates(s, order) && (named ==> GoodNames(s)) && WellTyped(s, c) && GoodUnknown(s, c)
    requires i <= |order(c)|
    ensures
      var tags := order(c);
      LoadAll(s, named, Store(s, c.typ, Part(s, c, Tags(tags[..i])), None, false), Object(Serialized(s, named, order, c)), i) ==
        Loaded(true, Store(s, c.typ, Part(s, c, Tags(tags)), None, false))
    decreases c, 2, |order(c)| - i
  {
    var tags := order(c);
    assert Lists(tags, s, c);
    if i == |tags| {
      assert tags[..i] == tags;
    } else {
      var done, next := Tags(tags[..i]), Tags(tags[..i + 1]);
      assert tags[..i + 1] == tags[..i] + [tags[i]];
      assert next == done + {tags[i]};
      assert tags[i] !in done;
      MemberReads(s, named, order, c, done, tags[i]);
      MembersRead(s, named, order, c, i + 1);
    }
  }

  /** Whatever the order of the properties, reading what was written gives the message without its empty lists. */
  lemma {:induction false} RoundTrip(s: Schema, named: bool, order: Order, c: Content)
    requires Enumerates(s, order) && (named ==> GoodNames(s)) && WellTyped(s, c) && GoodUnknown(s, c)
    ensures LoadAll(s, named, Store(s, c.typ, map[], None, false), Object(Serialized(s, named, order, c)), 0) ==
      Loaded(true, Store(s, c.typ, Filled(s, c).fields, None, false))
    decreases c, 3
  {
    var tags := order(c);
    assert Lists(tags, s, c);
    MembersRead(s, named, order, c, 0);
    assert tags[..0] == [];
    assert Part(s, c, Tags(tags[..0])) == map[];
    forall t | t in Filled(s, c).fields ensures t in tags {
      if t in s[c.typ] { TypedIsPresent(s, s[c.typ][t], c.fields[t]); }
    }
    assert Part(s, c, Tags(tags)) == Filled(s, c).fields;
  }

  /**
   * A message survives the object serializer, in both key modes and for every order of
   * properties, exactly when no present repeated field of it is empty.
   */
  lemma ObjectRoundTripExactlyWhen(s: Schema, named: bool, order: Order, c: Content)
    requires Enumerates(s, order) && (named ==> GoodNames(s)) && WellTyped(s, c) && GoodUnknown(s, c)
    ensures
      LoadAll(s, named, Store(s, c.typ, map[], None, false), Object(Serialized(s, named, order, c)), 0) ==
        Loaded(true, Store(s, c.typ, c.fields, None, false))
      <==> NoEmptyList(s, c)
  {
    RoundTrip(s, named, order, c);
    FilledSame(s, c);
    assert Filled(s, c) == c <==> Filled(s, c).fields == c.fields;
  }

  // ----- the serializer as an object -----

  /** findFieldByName */
  method FindFieldByName(d: Descriptor, name: string) returns (found: Option<Tag>)
    ensures found.Some? ==> found.value in d && d[found.value].name == name
    ensures found.None? ==> forall t :: t in d ==> d[t].name != name
  {
    var tags := d.Keys;
    while tags != {}
      invariant tags <= d.Keys
      invariant forall t :: t in d && t !in tags ==> d[t].name != name
    {
      var tag := NextKey(tags);
      tags := tags - {tag};
      if d[tag].name == name {
        return Some(tag);
      }
    }
    return None;
  }

  class ObjectSerializer {
    const schema: Schema
    /** KeyOption.NAME */
    const named: bool

    constructor (schema: Schema, named: bool)
      ensures this.schema == schema && this.named == named
    {
      this.schema := schema;
      this.named := named;
    }

    /** The field a key names; NoField when an assertion fails. */
    method FindField_(d: Descriptor, key: Key) returns (found: Found)
      requires DistinctNames(d)
      ensures found == FindField(named, d, key)
    {
      if key.ByTag? {
        return if key.tag in d then Found.Known(key.tag) else Unknown(key.tag);
      }
      if !named {
        return NoField;
      }
      var t := FindFieldByName(d, key.name);
      return if t.Some? then Found.Known(t.value) else NoField;
    }

    method GetDeserializedValue(f: Field, value: Val) returns (v: Option<Val>)
      requires forall typ :: typ in schema ==> DistinctNames(schema[typ])
      ensures v == ReadItem(schema, named, f, value)
      decreases value, if value.Object? then |value.members| + 2 else 0
    {
      if f.kind.Composite? {
        if value.Msg? {
          return Some(value);
        }
        if !value.Object? {
          return None;
        }
        var message := new Messages.Message(schema, f.kind.typ);
        var ok := DeserializeTo(message, value);
        return if ok then Some(Msg(Content(message.typ, message.values))) else None;
      }
      if f.kind.Text? && f.convert && value.Num? {
        return Some(Str(Decimal(value.n)));
      }
      if f.kind.Number? && f.convert && value.Str? && IsInteger(value.s) {
        return Some(Num(NumberOf(value.s)));
      }
      return Some(value);
    }

    method AddItems(message: Messages.Message, f: Field, t: Tag, list: Val) returns (ok: bool)
      requires list.List? && forall typ :: typ in schema ==> DistinctNames(schema[typ])
      modifies message
      ensures Loaded(ok, message.State()) == LoadItems(schema, named, old(message.State()), f, t, list, 0)
      decreases list, |list.items| + 2
    {
      var j := 0;
      while j < |list.items|
        invariant j <= |list.items|
        invariant LoadItems(schema, named, message.State(), f, t, list, j) == LoadItems(schema, named, old(message.State()), f, t, list, 0)
      {
        var v := GetDeserializedValue(f, list.items[j]);
        if v.None? {
          return false;
        }
        var answer := message.AddValue_(t, v.value);
        if answer.Failed? {
          return false;
        }
        j := j + 1;
      }
      return true;
    }

    /** The body of the loop over the properties. */
    method DeserializeMember(message: Messages.Message, m: Member) returns (ok: bool)
      requires forall typ :: typ in schema ==> DistinctNames(schema[typ])
      requires DistinctNames(Fields(message.schema, message.typ))
      modifies message
      ensures Loaded(ok, message.State()) == LoadMember(schema, named, old(message.State()), m)
      decreases m, 0
    {
      var d := Fields(message.schema, message.typ);
      var found := FindField_(d, m.key);
      match found {
        case NoField => return false;
        case Unknown(t) =>
          var answer := message.SetUnknown_(t, m.value);
          return !answer.Failed?;
        case Known(t) =>
          if t !in d {
            return false;
          }
          if d[t].repeated {
            if !m.value.List? {
              return false;
            }
            ok := AddItems(message, d[t], t, m.value);
            return;
          }
          if IsArray(m.value) {
            return false;
          }
          var v := GetDeserializedValue(d[t], m.value);
          if v.None? {
            return false;
          }
          var answer := message.SetValue_(t, v.value);
          return !answer.Failed?;
      }
    }

    /** False when an assertion fails, which leaves what was read so far in the message. */
    method DeserializeTo(message: Messages.Message, data: Val) returns (ok: bool)
      requires data.Object?
      requires forall typ :: typ in schema ==> DistinctNames(schema[typ])
      requires DistinctNames(Fields(message.schema, message.typ))
      modifies message
      ensures Loaded(ok, message.State()) == LoadAll(schema, named, old(message.State()), data, 0)
      decreases data, |data.members| + 1
    {
      var i := 0;
      while i < |data.members|
        invariant i <= |data.members|
        invariant LoadAll(schema, named, message.State(), data, i) == LoadAll(schema, named, old(message.State()), data, 0)
      {
        ok := DeserializeMember(message, data.members[i]);
        if !ok {
          return;
        }
        i := i + 1;
      }
      return true;
    }
  }
}
