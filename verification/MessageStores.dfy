/**
 * The accessors of javascript/phonenumbernormalizer/js/message.js on the raw store values_ and,
 * in a lazily deserialized message, on the memo deserializedFields_.
 */
module MessageStores {
  import opened ProtoMessages
  import opened PbLite

  /** fields_, values_, deserializedFields_ when there is a lazy deserializer, and its indexing. */
  datatype Store = Store(schema: Schema, typ: TypeName, values: map<Tag, Val>, memo: Option<map<Tag, Val>>, zero: bool) {
    function Descriptor(): Descriptor {
      Fields(schema, typ)
    }
  }

  datatype Op = HasValue(t: Tag) | Get(t: Tag, index: int) | GetOrDefault(t: Tag, index: int) | ArrayOf(t: Tag)
              | CountOf(t: Tag) | Set(t: Tag, v: Val) | Add(t: Tag, v: Val) | Clear(t: Tag) | SetUnknown(t: Tag, v: Val)

  /** What a call returns; Failed stands for a failed assertion or a TypeError. */
  datatype Answer = Failed | Value(v: Val) | Flag(b: bool) | Count(n: nat) | Done

  datatype Result = Result(answer: Answer, store: Store)

  // ----- reading -----

  datatype Read = Read(value: Option<Val>, store: Store)

  /** getValueForField_: the value, read from the memo or put there; None when it cannot be decoded. */
  function ReadField(st: Store, t: Tag): Read
    requires t in st.Descriptor()
  {
    var f := st.Descriptor()[t];
    if !Has(st.values, t) then Read(Some(Null), st)
    else if st.memo.None? then Read(Some(st.values[t]), st)
    else if t in st.memo.value then Read(Some(st.memo.value[t]), st)
    else if f.repeated && !st.values[t].List? then Read(None, st)
    else
      var v := DecodedValue(st.schema, st.zero, f, st.values[t]);
      Read(Some(v), st.(memo := Some(st.memo.value[t := v])))
  }

  predicate IsArray(v: Val) {
    v.List? || v.Sparse?
  }

  /** get$Value */
  function GetValue(st: Store, t: Tag, index: int): Result {
    if t !in st.Descriptor() then Result(Failed, st)
    else
      var r := ReadField(st, t);
      if r.value.None? then Result(Failed, r.store)
      else if st.Descriptor()[t].repeated then
        if r.value.value.List? && 0 <= index < |r.value.value.items| then Result(Value(r.value.value.items[index]), r.store)
        else Result(Failed, r.store)
      else if IsArray(r.value.value) then Result(Failed, r.store)
      else Result(Value(r.value.value), r.store)
  }

  /** array$Values */
  function ArrayValues(st: Store, t: Tag): Result {
    if t !in st.Descriptor() || !st.Descriptor()[t].repeated then Result(Failed, st)
    else
      var r := ReadField(st, t);
      if r.value == Some(Null) then Result(Value(List([])), r.store)
      else if r.value.Some? && r.value.value.List? then Result(Value(r.value.value), r.store)
      else Result(Failed, r.store)
  }

  /** count$Values: counts the raw values. */
  function CountValues(st: Store, t: Tag): Answer {
    if t !in st.Descriptor() then Failed
    else if !st.Descriptor()[t].repeated then Count(if Has(st.values, t) then 1 else 0)
    else if !Has(st.values, t) then Count(0)
    else if st.values[t].List? then Count(|st.values[t].items|)
    else Failed
  }

  // ----- writing -----

  /** checkFieldType_ */
  predicate TypeMatches(kind: Kind, v: Val) {
    match kind
    case Number => v.Num?
    case Enum => v.Num?
    case Text => v.Str?
    case Boolean => v.Bool?
    case Composite(typ) => v.Msg? && v.content.typ == typ
  }

  predicate Falsy(v: Val) {
    v == Undef || v == Null || v == Num(0) || v == Str("") || v == Bool(false)
  }

  function Forget(memo: Option<map<Tag, Val>>, t: Tag): Option<map<Tag, Val>> {
    if memo.Some? then Some(memo.value - {t}) else None
  }

  /** set$Value */
  function SetValue(st: Store, t: Tag, v: Val): Result {
    if t !in st.Descriptor() || st.Descriptor()[t].repeated || !TypeMatches(st.Descriptor()[t].kind, v) then Result(Failed, st)
    else
      var memo := if st.memo.Some? then Some(st.memo.value[t := v]) else None;
      Result(Done, st.(values := st.values[t := v], memo := memo))
  }

  /** What add$Value pushes onto. */
  function Base(values: map<Tag, Val>, t: Tag): Val {
    if t !in values || Falsy(values[t]) then List([]) else values[t]
  }

  /** add$Value: pushes onto the raw array and drops the memo. */
  function AddValue(st: Store, t: Tag, v: Val): Result {
    if t !in st.Descriptor() || !st.Descriptor()[t].repeated || !TypeMatches(st.Descriptor()[t].kind, v) then Result(Failed, st)
    else
      var raw := Base(st.values, t);
      if !raw.List? then Result(Failed, st)
      else Result(Done, st.(values := st.values[t := List(raw.items + [v])], memo := Forget(st.memo, t)))
  }

  function Do(st: Store, op: Op): Result {
    match op
    case HasValue(t) => Result(if t in st.Descriptor() then Flag(Has(st.values, t)) else Failed, st)
    case Get(t, index) => GetValue(st, t, index)
    case GetOrDefault(t, index) =>
      if t in st.Descriptor() && !Has(st.values, t) then Result(Value(st.Descriptor()[t].fallback), st)
      else GetValue(st, t, index)
    case ArrayOf(t) => ArrayValues(st, t)
    case CountOf(t) => Result(CountValues(st, t), st)
    case Set(t, v) => SetValue(st, t, v)
    case Add(t, v) => AddValue(st, t, v)
    case Clear(t) =>
      if t !in st.Descriptor() then Result(Failed, st)
      else Result(Done, st.(values := st.values - {t}, memo := Forget(st.memo, t)))
    case SetUnknown(t, v) =>
      if t in st.Descriptor() || t < 1 || v == Null then Result(Failed, st)
      else Result(Done, st.(values := st.values[t := v], memo := Forget(st.memo, t)))
  }

  /** The answers to a sequence of calls, and the store after them. */
  datatype Trace = Trace(answers: seq<Answer>, store: Store)

  function Run(st: Store, ops: seq<Op>): Trace
    decreases |ops|
  {
    if ops == [] then Trace([], st)
    else
      var r := Do(st, ops[0]);
      var rest := Run(r.store, ops[1..]);
      Trace([r.answer] + rest.answers, rest.store)
  }

  // ----- the eager message with the same contents -----

  /** What the message holds in a field, decoded. */
  function Seen(st: Store, t: Tag): Val
    requires t in st.values
  {
    if st.memo.None? then st.values[t]
    else if t in st.memo.value then st.memo.value[t]
    else DecodedField(st.schema, st.zero, st.typ, t, st.values[t])
  }

  function Eager(st: Store): Store {
    st.(values := map t | t in st.values :: Seen(st, t), memo := None)
  }

  /** The memo holds values of present known fields, and of repeated fields what decoding the raw values gives. */
  predicate Coherent(st: Store) {
    st.memo.Some? ==> forall t :: t in st.memo.value ==>
      && t in st.Descriptor() && Has(st.values, t) && Present(st.memo.value[t])
      && (st.Descriptor()[t].repeated ==>
           st.values[t].List? && st.memo.value[t] == DecodedValue(st.schema, st.zero, st.Descriptor()[t], st.values[t]))
  }

  /** Adding true to a repeated field of booleans. */
  predicate AddsTrue(st: Store, op: Op) {
    op.Add? && op.t in st.Descriptor() && st.Descriptor()[op.t].repeated && st.Descriptor()[op.t].kind == Boolean && op.v == Bool(true)
  }

  lemma DecodingKeepsPresence(s: Schema, zero: bool, f: Field, raw: Val)
    requires Present(raw)
    ensures Present(DecodedValue(s, zero, f, raw))
    ensures f.repeated ==> DecodedValue(s, zero, f, raw).List? == raw.List?
    ensures f.repeated && raw.List? ==> |DecodedValue(s, zero, f, raw).items| == |raw.items|
  {
  }

  lemma SeenIsPresent(st: Store, t: Tag)
    requires Coherent(st) && t in st.values
    ensures Has(Eager(st).values, t) == Has(st.values, t)
  {
    if Has(st.values, t) && t in st.Descriptor() {
      DecodingKeepsPresence(st.schema, st.zero, st.Descriptor()[t], st.values[t]);
    }
  }

  /** Reading fills the memo, and answers as the eager message does. */
  lemma ReadingIsTransparent(st: Store, t: Tag)
    requires Coherent(st) && t in st.Descriptor()
    requires st.Descriptor()[t].repeated && Has(st.values, t) ==> st.values[t].List?
    ensures var r, e := ReadField(st, t), ReadField(Eager(st), t);
      r.value == e.value && e.store == Eager(st) == Eager(r.store) && Coherent(r.store)
  {
    if t in st.values { SeenIsPresent(st, t); }
    var r := ReadField(st, t);
    if Has(st.values, t) {
      DecodingKeepsPresence(st.schema, st.zero, st.Descriptor()[t], st.values[t]);
    }
    assert Eager(r.store).values == Eager(st).values;
  }

  /** The two stores answer alike and stay each other's lazy and eager form. */
  predicate Alike(lazy: Result, eager: Result) {
    lazy.answer == eager.answer && Coherent(lazy.store) && Eager(lazy.store) == eager.store
  }

  lemma ReadsAlike(st: Store, t: Tag, index: int)
    requires Coherent(st)
    ensures Alike(GetValue(st, t, index), GetValue(Eager(st), t, index))
    ensures Alike(ArrayValues(st, t), ArrayValues(Eager(st), t))
    ensures CountValues(st, t) == CountValues(Eager(st), t)
  {
    if t in st.Descriptor() {
      if t in st.values { SeenIsPresent(st, t); }
      var f := st.Descriptor()[t];
      if Has(st.values, t) { DecodingKeepsPresence(st.schema, st.zero, f, st.values[t]); }
      if f.repeated && Has(st.values, t) && !st.values[t].List? {
        assert ReadField(Eager(st), t).value == Some(Seen(st, t));
      } else {
        ReadingIsTransparent(st, t);
      }
    }
  }

  lemma SetsAlike(st: Store, t: Tag, v: Val)
    requires Coherent(st)
    ensures Alike(SetValue(st, t, v), SetValue(Eager(st), t, v))
  {
    var r, e := SetValue(st, t, v), SetValue(Eager(st), t, v);
    if r.answer.Done? {
      assert Eager(r.store).values == e.store.values;
    }
  }

  lemma ForgetsAlike(st: Store, t: Tag)
    requires Coherent(st)
    ensures Coherent(st.(values := st.values - {t}, memo := Forget(st.memo, t)))
    ensures Eager(st.(values := st.values - {t}, memo := Forget(st.memo, t))).values == Eager(st).values - {t}
  {
  }

  lemma UnknownAlike(st: Store, t: Tag, v: Val)
    requires Coherent(st) && t !in st.Descriptor()
    ensures Coherent(st.(values := st.values[t := v], memo := Forget(st.memo, t)))
    ensures Eager(st.(values := st.values[t := v], memo := Forget(st.memo, t))).values == Eager(st).values[t := v]
  {
  }

  lemma BaseDecodes(st: Store, t: Tag)
    requires Coherent(st) && st.memo.Some? && t in st.Descriptor() && st.Descriptor()[t].repeated
    ensures Base(Eager(st).values, t) == DecodedValue(st.schema, st.zero, st.Descriptor()[t], Base(st.values, t))
  {
  }

  lemma AddedElsewhere(st: Store, t: Tag, v: Val, u: Tag)
    requires st.memo.Some? && AddValue(st, t, v).answer.Done? && u in st.values && u != t
    ensures u in AddValue(st, t, v).store.values && Seen(AddValue(st, t, v).store, u) == Seen(st, u)
  {
  }

  /** The field that was added to, seen in the lazy and in the eager message. */
  lemma AddedHere(st: Store, t: Tag, v: Val)
    requires Coherent(st) && st.memo.Some? && AddValue(st, t, v).answer.Done?
    ensures AddValue(Eager(st), t, v).answer.Done?
    ensures
      var r, e := AddValue(st, t, v).store, AddValue(Eager(st), t, v).store;
      var before := DecodedValue(st.schema, st.zero, st.Descriptor()[t], Base(st.values, t)).items;
      && t in r.values && t in e.values
      && e.values[t] == List(before + [v])
      && Seen(r, t) == List(before + [if v == Bool(true) then Bool(false) else v])
  {
    BaseDecodes(st, t);
    AppendedDecodes(st.schema, st.zero, st.Descriptor()[t], Base(st.values, t), v);
  }

  /** After an add, the lazy message holds what the eager one does exactly when true was not added to booleans. */
  lemma AddsAlikeExactlyWhen(st: Store, t: Tag, v: Val)
    requires Coherent(st) && st.memo.Some?
    ensures Alike(AddValue(st, t, v), AddValue(Eager(st), t, v)) <==> AddValue(st, t, v).answer.Failed? || !AddsTrue(st, Add(t, v))
  {
    var r, e := AddValue(st, t, v), AddValue(Eager(st), t, v);
    if r.answer.Done? {
      AddedHere(st, t, v);
      var before := DecodedValue(st.schema, st.zero, st.Descriptor()[t], Base(st.values, t)).items;
      assert e.store.values[t].items[|before|] == v;
      assert Seen(r.store, t).items[|before|] == if v == Bool(true) then Bool(false) else v;
      forall u | u in st.values && u != t ensures u in r.store.values && Seen(r.store, u) == Seen(st, u) {
        AddedElsewhere(st, t, v, u);
      }
      AddKeepsCoherence(st, t, v);
      if v == Bool(true) {
        assert Eager(r.store).values[t] != e.store.values[t];
      } else {
        assert Eager(r.store).values == e.store.values;
      }
    } else if t in st.Descriptor() && st.Descriptor()[t].repeated {
      BaseDecodes(st, t);
    }
  }

  lemma AddKeepsCoherence(st: Store, t: Tag, v: Val)
    requires Coherent(st)
    ensures Coherent(AddValue(st, t, v).store)
  {
  }

  lemma AppendedDecodes(s: Schema, zero: bool, f: Field, raw: Val, v: Val)
    requires f.repeated && raw.List? && TypeMatches(f.kind, v)
    ensures DecodedValue(s, zero, f, List(raw.items + [v])).items ==
      DecodedValue(s, zero, f, raw).items + [if v == Bool(true) then Bool(false) else v]
  {
  }

  lemma StepsAlike(st: Store, op: Op)
    requires Coherent(st) && !AddsTrue(st, op)
    ensures Alike(Do(st, op), Do(Eager(st), op))
  {
    if op.t in st.values { SeenIsPresent(st, op.t); }
    match op
    case HasValue(t) =>
    case Get(t, index) => ReadsAlike(st, t, index);
    case GetOrDefault(t, index) => ReadsAlike(st, t, index);
    case ArrayOf(t) => ReadsAlike(st, t, 0);
    case CountOf(t) => ReadsAlike(st, t, 0);
    case Set(t, v) => SetsAlike(st, t, v);
    case Add(t, v) => if st.memo.Some? { AddsAlikeExactlyWhen(st, t, v); } else { assert Eager(st) == st; }
    case Clear(t) => ForgetsAlike(st, t);
    case SetUnknown(t, v) => if t !in st.Descriptor() { UnknownAlike(st, t, v); }
  }

  predicate NoAddsTrue(st: Store, ops: seq<Op>) {
    forall i :: 0 <= i < |ops| ==> !AddsTrue(st, ops[i])
  }

  /**
   * A lazily deserialized message answers every sequence of calls as the eager message with the
   * same contents does, and ends with the same contents, unless true is added to a repeated field
   * of booleans.
   */
  lemma {:induction false} MemoIsTransparent(st: Store, ops: seq<Op>)
    requires Coherent(st) && NoAddsTrue(st, ops)
    ensures Run(st, ops).answers == Run(Eager(st), ops).answers
    ensures Coherent(Run(st, ops).store) && Eager(Run(st, ops).store) == Run(Eager(st), ops).store
    decreases |ops|
  {
    if ops != [] {
      StepsAlike(st, ops[0]);
      var next := Do(st, ops[0]).store;
      SameDescriptor(st, ops[0]);
      MemoIsTransparent(next, ops[1..]);
    }
  }

  lemma SameDescriptor(st: Store, op: Op)
    ensures var next := Do(st, op).store; next.schema == st.schema && next.typ == st.typ && next.zero == st.zero
  {
  }

  /** A message as PbLiteSerializer.deserialize makes it. */
  function Deserialized(s: Schema, zero: bool, typ: TypeName, data: map<int, Val>): Store {
    Store(s, typ, map t | t in Moved(data.Keys, Shift(zero)) :: data[t - Shift(zero)], Some(map[]), zero)
  }

  /**
   * A message deserialized from the serialization of c answers as c itself held eagerly.
   */
  lemma DeserializedAnswersAsOriginal(s: Schema, zero: bool, c: Content, ops: seq<Op>)
    requires WellTyped(s, c)
    requires NoAddsTrue(Deserialized(s, zero, c.typ, Encoded(s, zero, c)), ops)
    ensures Run(Deserialized(s, zero, c.typ, Encoded(s, zero, c)), ops).answers ==
      Run(Store(s, c.typ, c.fields, None, zero), ops).answers
  {
    var data := Encoded(s, zero, c);
    var lazy := Deserialized(s, zero, c.typ, data);
    RoundTrip(s, zero, c);
    assert Eager(lazy).values == Decoded(s, zero, c.typ, Sparse(data)).fields;
    MemoIsTransparent(lazy, ops);
  }
}
