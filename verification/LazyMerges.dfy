/**
 * mergeFrom of javascript/phonenumbernormalizer/js/message.js into a lazily deserialized message
 * whose sub-message is still serialized. The sub-message that is deserialized for the merge works on
 * the raw array of its parent: without zero indexing the array itself is its values_, with zero
 * indexing a shifted copy is, which shares the lists and arrays inside.
 */
module LazyMerges {
  import opened ProtoMessages
  import opened PbLite
  import opened MessageStores

  // ----- the merge, field by field -----

  function AddAll(st: Store, t: Tag, items: seq<Val>): (r: Store)
    ensures r.schema == st.schema && r.typ == st.typ && r.zero == st.zero && r.memo.Some? == st.memo.Some?
    decreases |items|
  {
    if items == [] then st else AddAll(AddValue(st, t, items[0]).store, t, items[1..])
  }

  function Forgotten(st: Store, t: Tag): Store {
    st.(memo := Forget(st.memo, t))
  }

  /** The body of the loop in mergeFrom for a field that the source has. */
  function MergeField(st: Store, t: Tag, v: Val): (r: Store)
    requires t in st.Descriptor() && ValueOk(st.schema, st.Descriptor()[t], v)
    ensures r.schema == st.schema && r.typ == st.typ && r.zero == st.zero && r.memo.Some? == st.memo.Some?
    decreases v, 1
  {
    var f := st.Descriptor()[t];
    if f.repeated then AddAll(Forgotten(st, t), t, ClonedItems(st.schema, f, v))
    else
      assert ItemOk(st.schema, f.kind, v);
      if f.kind.Composite? then MergeChild(Forgotten(st, t), t, v.content)
      else SetValue(Forgotten(st, t), t, v).store
  }

  /**
   * Merging into the sub-message that getValueForField_ finds. A message in values_ is changed in
   * place; one deserialized for this merge is only in the memo, but writes through to the raw array.
   */
  function MergeChild(st: Store, t: Tag, m: Content): (r: Store)
    requires WellTyped(st.schema, m) && t in st.Descriptor() && st.Descriptor()[t].kind == Composite(m.typ)
    ensures r.schema == st.schema && r.typ == st.typ && r.zero == st.zero && r.memo.Some? == st.memo.Some?
    decreases m, 2
  {
    if t !in st.values || !(st.values[t].Msg? || (st.values[t].Sparse? && st.memo.Some?)) then
      SetValue(st, t, Msg(Clone(st.schema, m))).store
    else if st.values[t].Msg? then
      var merged := Msg(Merge(st.schema, st.values[t].content, m));
      st.(values := st.values[t := merged], memo := if st.memo.Some? then Some(st.memo.value[t := merged]) else None)
    else
      var raw := st.values[t].entries;
      var child := MergeInto(Deserialized(st.schema, st.zero, m.typ, raw), m);
      st.(values := st.values[t := Sparse(WrittenThrough(st.schema, st.zero, m.typ, raw, child.values))],
          memo := Some(st.memo.value[t := Msg(Content(m.typ, Eager(child).values))]))
  }

  /** The known fields the loop does something to. */
  predicate Touched(d: Descriptor, m: Content, t: Tag) {
    t in d && Has(m.fields, t)
  }

  /** mergeFrom: no field touches another one. */
  function MergeInto(st: Store, m: Content): Store
    requires WellTyped(st.schema, m) && m.typ == st.typ
    decreases m, 0
  {
    var d := st.Descriptor();
    st.(values := map t | t in st.values.Keys + m.fields.Keys && (t in st.values || Copied(d, m.fields, t)) ::
          if Copied(d, m.fields, t) then
            assert ValueOk(st.schema, d[t], m.fields[t]);
            FieldOf(MergeField(st, t, m.fields[t]).values, t)
          else st.values[t],
        memo := if st.memo.None? then None
          else Some(map t | t in st.memo.value.Keys + m.fields.Keys && t in MemoAfter(st, m, t) :: MemoAfter(st, m, t)[t]))
  }

  function FieldOf(fields: map<Tag, Val>, t: Tag): Val {
    if t in fields then fields[t] else Undef
  }

  function MemoAfter(st: Store, m: Content, t: Tag): map<Tag, Val>
    requires WellTyped(st.schema, m) && m.typ == st.typ && st.memo.Some?
    decreases m, 0, 0
  {
    if Touched(st.Descriptor(), m, t) then
      assert ValueOk(st.schema, st.Descriptor()[t], m.fields[t]);
      MergeField(st, t, m.fields[t]).memo.value
    else st.memo.value
  }

  /** What the raw array holds after a message deserialized from it ended with these values. */
  function WrittenThrough(s: Schema, zero: bool, typ: TypeName, raw: map<int, Val>, values: map<Tag, Val>): map<int, Val> {
    if !zero then values
    else map k | k in raw :: if Shared(Fields(s, typ), k + 1, raw[k]) then FieldOf(values, k + 1) else raw[k]
  }

  /** A list, array or message that the shifted copy shares with the raw array. */
  predicate Shared(d: Descriptor, t: Tag, v: Val) {
    t in d && Present(v) && (d[t].repeated || d[t].kind.Composite?)
  }

  // ----- what a merge shows, and what it leaves in the raw array -----

  /** A serialized message: known fields hold what can be decoded. */
  predicate RawOk(s: Schema, zero: bool, typ: TypeName, data: Val)
    decreases data, 0
  {
    && data.Sparse?
    && forall t :: t in Fields(s, typ) && t - Shift(zero) in data.entries && Present(data.entries[t - Shift(zero)]) ==>
      RawFieldOk(s, zero, Fields(s, typ)[t], data.entries[t - Shift(zero)])
  }

  predicate RawFieldOk(s: Schema, zero: bool, f: Field, raw: Val)
    decreases raw, 1
  {
    if f.repeated then raw.List?
    else f.kind.Composite? ==>
      RawOk(s, zero, f.kind.typ, raw) || (raw.Msg? && raw.content.typ == f.kind.typ && WellTyped(s, raw.content))
  }

  /** What a field of the raw array holds, None when it is absent. */
  function RawAt(zero: bool, data: Val, t: Tag): Option<Val>
    requires data.Sparse?
  {
    if t - Shift(zero) in data.entries && Present(data.entries[t - Shift(zero)]) then Some(data.entries[t - Shift(zero)]) else None
  }

  function Falsified(v: Val): Val {
    if v == Bool(true) then Bool(false) else v
  }

  /** A list of booleans without its trues. */
  function FalsifiedList(v: Val): Val
    requires v.List?
  {
    List(seq(|v.items|, i requires 0 <= i < |v.items| => Falsified(v.items[i])))
  }

  lemma FalsifiedOk(s: Schema, f: Field, v: Val)
    requires f.repeated && ValueOk(s, f, v)
    ensures ValueOk(s, f, FalsifiedList(v)) && |FalsifiedList(v).items| == |v.items|
    ensures forall i :: 0 <= i < |v.items| ==> ClonedItems(s, f, FalsifiedList(v))[i] == Falsified(ClonedItems(s, f, v)[i])
  {
    forall i | 0 <= i < |v.items| ensures ItemOk(s, f.kind, FalsifiedList(v).items[i]) {
      assert ItemOk(s, f.kind, v.items[i]);
    }
  }

  /** The source as it shows after the merge: true in a list of booleans reads as false. */
  function Shown(s: Schema, zero: bool, data: Val, m: Content): (r: Content)
    requires data.Sparse? && WellTyped(s, m)
    ensures r.typ == m.typ && WellTyped(s, r) && r.fields.Keys == m.fields.Keys
    decreases m, 0
  {
    Content(m.typ, map t | t in m.fields :: if t in s[m.typ] then ShownValue(s, zero, s[m.typ][t], RawAt(zero, data, t), m.fields[t]) else m.fields[t])
  }

  function ShownValue(s: Schema, zero: bool, f: Field, raw: Option<Val>, v: Val): (r: Val)
    requires ValueOk(s, f, v)
    ensures ValueOk(s, f, r) && (f.repeated ==> |r.items| == |v.items|)
    decreases v, 1
  {
    if f.repeated then
      FalsifiedOk(s, f, v);
      FalsifiedList(v)
    else
      assert ItemOk(s, f.kind, v);
      if f.kind.Composite? && raw.Some? && raw.value.Sparse? then Msg(Shown(s, zero, raw.value, v.content)) else v
  }

  /** The part of the source that is in the raw array after the merge, as it will be decoded. */
  function Left(s: Schema, zero: bool, data: Val, m: Content): (r: Content)
    requires data.Sparse? && WellTyped(s, m)
    ensures r.typ == m.typ && WellTyped(s, r)
    decreases m, 0
  {
    Content(m.typ, map t | t in m.fields && (t in s[m.typ] ==> LeftValue(s, zero, s[m.typ][t], RawAt(zero, data, t), m.fields[t]).Some?) ::
      if t in s[m.typ] then LeftValue(s, zero, s[m.typ][t], RawAt(zero, data, t), m.fields[t]).value else m.fields[t])
  }

  function LeftValue(s: Schema, zero: bool, f: Field, raw: Option<Val>, v: Val): (r: Option<Val>)
    requires ValueOk(s, f, v)
    ensures r.Some? ==> ValueOk(s, f, r.value) && (f.repeated ==> |r.value.items| == |v.items|)
    decreases v, 1
  {
    if zero && raw.None? then None
    else if f.repeated then
      FalsifiedOk(s, f, v);
      Some(FalsifiedList(v))
    else
      assert ItemOk(s, f.kind, v);
      if !f.kind.Composite? then (if zero then None else Some(Falsified(v)))
      else if raw.Some? && raw.value.Sparse? then Some(Msg(Left(s, zero, raw.value, v.content)))
      else Some(v)
  }

  // ----- one field -----

  lemma ForgetTwice(memo: Option<map<Tag, Val>>, t: Tag)
    ensures Forget(Forget(memo, t), t) == Forget(memo, t)
  {
    if memo.Some? { assert memo.value - {t} - {t} == memo.value - {t}; }
  }

  lemma {:induction false} AddAllAppends(st: Store, t: Tag, items: seq<Val>)
    requires t in st.Descriptor() && st.Descriptor()[t].repeated && Base(st.values, t).List? && items != []
    requires forall i :: 0 <= i < |items| ==> TypeMatches(st.Descriptor()[t].kind, items[i])
    ensures AddAll(st, t, items) == st.(values := st.values[t := List(Base(st.values, t).items + items)], memo := Forget(st.memo, t))
    decreases |items|
  {
    var base := Base(st.values, t).items;
    var next := AddValue(st, t, items[0]).store;
    assert next == st.(values := st.values[t := List(base + [items[0]])], memo := Forget(st.memo, t));
    if |items| == 1 {
      assert items == [items[0]];
      assert AddAll(next, t, []) == next;
      assert items[1..] == [];
    } else {
      AddAllAppends(next, t, items[1..]);
      assert base + [items[0]] + items[1..] == base + items;
      assert next.values[t := List(base + items)] == st.values[t := List(base + items)];
      ForgetTwice(st.memo, t);
    }
  }

  lemma ClonesMatch(s: Schema, f: Field, v: Val)
    requires f.repeated && ValueOk(s, f, v)
    ensures forall i :: 0 <= i < |v.items| ==> TypeMatches(f.kind, ClonedItems(s, f, v)[i])
  {
    forall i | 0 <= i < |v.items| ensures TypeMatches(f.kind, ClonedItems(s, f, v)[i]) {
      assert ItemOk(s, f.kind, v.items[i]);
    }
  }

  lemma CloneDecodes(s: Schema, zero: bool, f: Field, v: Val)
    requires ItemOk(s, f.kind, v)
    ensures DecodedItem(s, zero, f, ClonedItem(s, f.kind, v)) == Falsified(ClonedItem(s, f.kind, v))
  {
  }

  /** Decoding a list to which items were added. */
  lemma LongerListDecodes(s: Schema, zero: bool, f: Field, old_: Val, v: Val)
    requires f.repeated && old_.List? && ValueOk(s, f, v)
    ensures
      DecodedValue(s, zero, f, List(old_.items + ClonedItems(s, f, v))).items ==
        DecodedValue(s, zero, f, old_).items + ClonedItems(s, f, ShownValue(s, zero, f, None, v))
  {
    FalsifiedOk(s, f, v);
    var clones := ClonedItems(s, f, v);
    forall i | 0 <= i < |clones| ensures DecodedItem(s, zero, f, clones[i]) == Falsified(clones[i]) {
      CloneDecodes(s, zero, f, v.items[i]);
    }
    var whole := DecodedValue(s, zero, f, List(old_.items + clones)).items;
    assert |whole| == |old_.items| + |clones|;
  }

  /** The sub-message as it is deserialized for the merge. */
  function Fresh(s: Schema, zero: bool, typ: TypeName, data: Val): Store
    requires data.Sparse?
  {
    Deserialized(s, zero, typ, data.entries)
  }

  /** What the sub-message holds after the merge. */
  function View(s: Schema, zero: bool, data: Val, m: Content): Content
    requires data.Sparse? && WellTyped(s, m)
  {
    Content(m.typ, Eager(MergeInto(Fresh(s, zero, m.typ, data), m)).values)
  }

  /** What the raw array holds after the merge. */
  function RawAfter(s: Schema, zero: bool, data: Val, m: Content): (r: Val)
    requires data.Sparse? && WellTyped(s, m)
    ensures r.Sparse?
  {
    Sparse(WrittenThrough(s, zero, m.typ, data.entries, MergeInto(Fresh(s, zero, m.typ, data), m).values))
  }

  lemma FreshHolds(s: Schema, zero: bool, typ: TypeName, data: Val, t: Tag)
    requires data.Sparse?
    ensures
      var st, prior := Fresh(s, zero, typ, data), Lookup(Decoded(s, zero, typ, data).fields, t);
      && Lookup(st.values, t) == (if t - Shift(zero) in data.entries then Some(data.entries[t - Shift(zero)]) else None)
      && prior == (if t in st.values then Some(DecodedField(s, zero, typ, t, st.values[t])) else None)
      && (RawAt(zero, data, t).Some? <==> Has(st.values, t)) && (Has(st.values, t) ==> RawAt(zero, data, t) == Some(st.values[t]))
      && st.memo == Some(map[]) && st.Descriptor() == Fields(s, typ)
  {
    DecodedLookup(s, zero, typ, data, t);
  }

  lemma ListField(s: Schema, zero: bool, typ: TypeName, data: Val, t: Tag, v: Val)
    requires RawOk(s, zero, typ, data) && t in Fields(s, typ) && Fields(s, typ)[t].repeated
    requires ValueOk(s, Fields(s, typ)[t], v) && v.items != []
    ensures
      var f, st := Fields(s, typ)[t], Fresh(s, zero, typ, data);
      var r := MergeField(st, t, v);
      && t in r.values && Present(r.values[t]) && t !in r.memo.value
      && DecodedField(s, zero, typ, t, r.values[t]) ==
        MergedValue(s, f, Lookup(Decoded(s, zero, typ, data).fields, t), ShownValue(s, zero, f, RawAt(zero, data, t), v))
  {
    var f, st := Fields(s, typ)[t], Fresh(s, zero, typ, data);
    FreshHolds(s, zero, typ, data, t);
    ClonesMatch(s, f, v);
    var base := Base(st.values, t);
    assert base.List?;
    AddAllAppends(Forgotten(st, t), t, ClonedItems(s, f, v));
    LongerListDecodes(s, zero, f, base, v);
    assert ShownValue(s, zero, f, RawAt(zero, data, t), v) == ShownValue(s, zero, f, None, v);
    assert Items(Lookup(Decoded(s, zero, typ, data).fields, t)) == DecodedValue(s, zero, f, base).items;
  }

  lemma ScalarField(s: Schema, zero: bool, typ: TypeName, data: Val, t: Tag, v: Val)
    requires data.Sparse? && t in Fields(s, typ) && !Fields(s, typ)[t].repeated && !Fields(s, typ)[t].kind.Composite?
    requires ValueOk(s, Fields(s, typ)[t], v)
    ensures
      var f, st := Fields(s, typ)[t], Fresh(s, zero, typ, data);
      var r := MergeField(st, t, v);
      && t in r.values && r.values[t] == v && Present(v) && t in r.memo.value && r.memo.value[t] == v
      && DecodedField(s, zero, typ, t, v) == Falsified(v)
      && v == MergedValue(s, f, Lookup(Decoded(s, zero, typ, data).fields, t), ShownValue(s, zero, f, RawAt(zero, data, t), v))
  {
    var f, st := Fields(s, typ)[t], Fresh(s, zero, typ, data);
    FreshHolds(s, zero, typ, data, t);
    assert ItemOk(s, f.kind, v);
    CloneDecodes(s, zero, f, v);
    assert ClonedItem(s, f.kind, v) == v;
  }

  lemma RawChild(s: Schema, zero: bool, typ: TypeName, data: Val, t: Tag)
    requires RawOk(s, zero, typ, data) && t in Fields(s, typ) && !Fields(s, typ)[t].repeated && Fields(s, typ)[t].kind.Composite?
    ensures
      var raw, child := RawAt(zero, data, t), Fields(s, typ)[t].kind.typ;
      raw.Some? ==> RawOk(s, zero, child, raw.value) || (raw.value.Msg? && raw.value.content.typ == child && WellTyped(s, raw.value.content))
  {
  }

  /** A sub-message of the sub-message, set anew or merged in place or written through. */
  lemma ChildField(s: Schema, zero: bool, typ: TypeName, data: Val, t: Tag, m: Content)
    requires RawOk(s, zero, typ, data) && t in Fields(s, typ) && !Fields(s, typ)[t].repeated
    requires Fields(s, typ)[t].kind == Composite(m.typ) && WellTyped(s, m)
    ensures
      var st := Fresh(s, zero, typ, data);
      var r := MergeField(st, t, Msg(m));
      && t in r.values && t in r.memo.value && Present(r.values[t])
      && match RawAt(zero, data, t)
         case None => r.values[t] == r.memo.value[t] == Msg(Clone(s, m))
         case Some(raw) =>
           if raw.Msg? then r.values[t] == r.memo.value[t] == Msg(Merge(s, raw.content, m))
           else raw.Sparse? && r.values[t] == RawAfter(s, zero, raw, m) && r.memo.value[t] == Msg(View(s, zero, raw, m))
  {
    FreshHolds(s, zero, typ, data, t);
    var st := Fresh(s, zero, typ, data);
    assert MergeField(st, t, Msg(m)) == MergeChild(Forgotten(st, t), t, m);
    RawChild(s, zero, typ, data, t);
    if RawAt(zero, data, t).None? {
      assert TypeMatches(st.Descriptor()[t].kind, Msg(Clone(s, m)));
    }
  }

  // ----- the whole message -----

  lemma AfterMerge(st: Store, m: Content, t: Tag)
    requires WellTyped(st.schema, m) && m.typ == st.typ && st.memo.Some?
    ensures
      var d, r := st.Descriptor(), MergeInto(st, m);
      && r.schema == st.schema && r.typ == st.typ && r.zero == st.zero && r.memo.Some?
      && (Copied(d, m.fields, t) ==>
            && ValueOk(st.schema, d[t], m.fields[t])
            && t in r.values && r.values[t] == FieldOf(MergeField(st, t, m.fields[t]).values, t))
      && (!Copied(d, m.fields, t) ==> Lookup(r.values, t) == Lookup(st.values, t))
  {
    if Copied(st.Descriptor(), m.fields, t) { assert ValueOk(st.schema, st.Descriptor()[t], m.fields[t]); }
  }

  lemma MemoAfterMerge(s: Schema, zero: bool, data: Val, m: Content, t: Tag)
    requires data.Sparse? && WellTyped(s, m)
    ensures
      var st := Fresh(s, zero, m.typ, data);
      var memo := MergeInto(st, m).memo;
      && memo.Some?
      && (Copied(s[m.typ], m.fields, t) ==>
            && ValueOk(s, s[m.typ][t], m.fields[t])
            && Lookup(memo.value, t) == Lookup(MergeField(st, t, m.fields[t]).memo.value, t))
      && (!Copied(s[m.typ], m.fields, t) ==> t !in memo.value)
  {
    var st := Fresh(s, zero, m.typ, data);
    if Touched(st.Descriptor(), m, t) {
      assert ValueOk(s, s[m.typ][t], m.fields[t]);
      if !Copied(s[m.typ], m.fields, t) {
        assert MergeField(st, t, m.fields[t]) == AddAll(Forgotten(st, t), t, []);
      }
    }
  }

  lemma ShownIsCopied(s: Schema, zero: bool, data: Val, m: Content, t: Tag)
    requires data.Sparse? && WellTyped(s, m)
    ensures Copied(s[m.typ], Shown(s, zero, data, m).fields, t) <==> Copied(s[m.typ], m.fields, t)
  {
    if t in m.fields && t in s[m.typ] {
      var f, raw, v := s[m.typ][t], RawAt(zero, data, t), m.fields[t];
      assert ValueOk(s, f, v) && ValueOk(s, f, ShownValue(s, zero, f, raw, v));
      TypedIsThere(s, f, v);
      TypedIsThere(s, f, ShownValue(s, zero, f, raw, v));
    }
  }

  lemma TypedIsThere(s: Schema, f: Field, v: Val)
    requires ValueOk(s, f, v)
    ensures Present(v) && (f.repeated ==> v.List? && (v == List([]) <==> v.items == []))
  {
    if !f.repeated { assert ItemOk(s, f.kind, v); }
  }

  lemma PriorChild(s: Schema, zero: bool, typ: TypeName, data: Val, t: Tag)
    requires RawOk(s, zero, typ, data) && t in Fields(s, typ) && !Fields(s, typ)[t].repeated && Fields(s, typ)[t].kind.Composite?
    ensures
      var f, raw := Fields(s, typ)[t], RawAt(zero, data, t);
      && (raw.Some? ==> raw.value.Msg? || RawOk(s, zero, f.kind.typ, raw.value))
      && Child(Lookup(Decoded(s, zero, typ, data).fields, t), f.kind.typ) ==
        if raw.None? then Empty(f.kind.typ) else if raw.value.Msg? then raw.value.content else Decoded(s, zero, f.kind.typ, raw.value)
  {
    FreshHolds(s, zero, typ, data, t);
    RawChild(s, zero, typ, data, t);
    var f, raw := Fields(s, typ)[t], RawAt(zero, data, t);
    if raw.Some? {
      assert DecodedField(s, zero, typ, t, raw.value) == DecodedItem(s, zero, f, raw.value);
    }
  }

  lemma {:induction false} ChildShows(s: Schema, zero: bool, typ: TypeName, data: Val, t: Tag, m: Content)
    requires RawOk(s, zero, typ, data) && t in Fields(s, typ) && !Fields(s, typ)[t].repeated
    requires Fields(s, typ)[t].kind == Composite(m.typ) && WellTyped(s, m)
    ensures
      var f, r := Fields(s, typ)[t], MergeField(Fresh(s, zero, typ, data), t, Msg(m));
      && t in r.values && t in r.memo.value
      && r.memo.value[t] ==
        MergedValue(s, f, Lookup(Decoded(s, zero, typ, data).fields, t), ShownValue(s, zero, f, RawAt(zero, data, t), Msg(m)))
    decreases m, 2
  {
    var f, raw := Fields(s, typ)[t], RawAt(zero, data, t);
    ChildField(s, zero, typ, data, t, m);
    PriorChild(s, zero, typ, data, t);
    if raw.Some? && raw.value.Sparse? { MergeShows(s, zero, raw.value, m); }
    hide MergeField, View, RawAfter, RawOk, Decoded, Shown, Merge;
    assert ItemOk(s, f.kind, Msg(m));
  }

  lemma {:induction false} FieldShows(s: Schema, zero: bool, data: Val, m: Content, t: Tag)
    requires WellTyped(s, m) && RawOk(s, zero, m.typ, data)
    ensures Lookup(View(s, zero, data, m).fields, t) ==
      Lookup(Merge(s, Decoded(s, zero, m.typ, data), Shown(s, zero, data, m)).fields, t)
    decreases m, 0
  {
    var st, before, shown := Fresh(s, zero, m.typ, data), Decoded(s, zero, m.typ, data), Shown(s, zero, data, m);
    AfterMerge(st, m, t);
    MemoAfterMerge(s, zero, data, m, t);
    FreshHolds(s, zero, m.typ, data, t);
    ShownIsCopied(s, zero, data, m, t);
    MergedField(s, before, shown, t);
    if Copied(s[m.typ], m.fields, t) {
      var f, v, raw := s[m.typ][t], m.fields[t], RawAt(zero, data, t);
      TypedIsThere(s, f, v);
      if f.repeated {
        ListField(s, zero, m.typ, data, t, v);
      } else if f.kind.Composite? {
        assert ItemOk(s, f.kind, v);
        ChildShows(s, zero, m.typ, data, t, v.content);
      } else {
        ScalarField(s, zero, m.typ, data, t, v);
      }
    }
  }

  /** What the sub-message holds right after the merge: both, but that true in a list of booleans reads as false. */
  lemma {:induction false} MergeShows(s: Schema, zero: bool, data: Val, m: Content)
    requires WellTyped(s, m) && RawOk(s, zero, m.typ, data)
    ensures View(s, zero, data, m) == Merge(s, Decoded(s, zero, m.typ, data), Shown(s, zero, data, m))
    decreases m, 1
  {
    var a, b := View(s, zero, data, m), Merge(s, Decoded(s, zero, m.typ, data), Shown(s, zero, data, m));
    forall t ensures Lookup(a.fields, t) == Lookup(b.fields, t) {
      FieldShows(s, zero, data, m, t);
    }
    SameFields(a.fields, b.fields);
  }

  /** What a field of the raw array is after the merge. */
  lemma RawFieldAfter(s: Schema, zero: bool, data: Val, m: Content, t: Tag)
    requires WellTyped(s, m) && RawOk(s, zero, m.typ, data)
    ensures
      var d, entries, k := s[m.typ], RawAfter(s, zero, data, m).entries, t - Shift(zero);
      && (Copied(d, m.fields, t) ==> ValueOk(s, d[t], m.fields[t]))
      && (Copied(d, m.fields, t) && (!zero || (RawAt(zero, data, t).Some? && (d[t].repeated || d[t].kind.Composite?))) ==>
            k in entries && entries[k] == FieldOf(MergeField(Fresh(s, zero, m.typ, data), t, m.fields[t]).values, t))
      && (!Copied(d, m.fields, t) || (zero && (RawAt(zero, data, t).None? || !(d[t].repeated || d[t].kind.Composite?))) ==>
            Lookup(entries, k) == Lookup(data.entries, k))
  {
    var st := Fresh(s, zero, m.typ, data);
    AfterMerge(st, m, t);
    FreshHolds(s, zero, m.typ, data, t);
  }

  lemma {:induction false} ChildLeaves(s: Schema, zero: bool, typ: TypeName, data: Val, t: Tag, m: Content)
    requires RawOk(s, zero, typ, data) && t in Fields(s, typ) && !Fields(s, typ)[t].repeated
    requires Fields(s, typ)[t].kind == Composite(m.typ) && WellTyped(s, m)
    requires zero ==> RawAt(zero, data, t).Some?
    ensures
      var f, r := Fields(s, typ)[t], MergeField(Fresh(s, zero, typ, data), t, Msg(m));
      var left := LeftValue(s, zero, f, RawAt(zero, data, t), Msg(m));
      && left.Some? && t in r.values && Present(r.values[t])
      && DecodedField(s, zero, typ, t, r.values[t]) == MergedValue(s, f, Lookup(Decoded(s, zero, typ, data).fields, t), left.value)
    decreases m, 2
  {
    var f, raw := Fields(s, typ)[t], RawAt(zero, data, t);
    ChildField(s, zero, typ, data, t, m);
    PriorChild(s, zero, typ, data, t);
    var after := MergeField(Fresh(s, zero, typ, data), t, Msg(m)).values[t];
    assert DecodedField(s, zero, typ, t, after) == DecodedItem(s, zero, f, after);
    if raw.Some? && raw.value.Sparse? { MergeLeaves(s, zero, raw.value, m); }
    hide MergeField, View, RawAfter, RawOk, Decoded, Left, Merge, DecodedField;
    assert ItemOk(s, f.kind, Msg(m));
  }

  lemma {:induction false} FieldLeaves(s: Schema, zero: bool, data: Val, m: Content, t: Tag)
    requires WellTyped(s, m) && RawOk(s, zero, m.typ, data)
    ensures Lookup(Decoded(s, zero, m.typ, RawAfter(s, zero, data, m)).fields, t) ==
      Lookup(Merge(s, Decoded(s, zero, m.typ, data), Left(s, zero, data, m)).fields, t)
    decreases m, 0
  {
    var d, before, left := s[m.typ], Decoded(s, zero, m.typ, data), Left(s, zero, data, m);
    RawFieldAfter(s, zero, data, m, t);
    DecodedLookup(s, zero, m.typ, data, t);
    DecodedLookup(s, zero, m.typ, RawAfter(s, zero, data, m), t);
    MergedField(s, before, left, t);
    LeftIsCopied(s, zero, data, m, t);
    if Copied(d, m.fields, t) {
      var f, v, raw := d[t], m.fields[t], RawAt(zero, data, t);
      TypedIsThere(s, f, v);
      if zero && raw.None? {
      } else if f.repeated {
        ListField(s, zero, m.typ, data, t, v);
        assert LeftValue(s, zero, f, raw, v) == Some(ShownValue(s, zero, f, raw, v));
      } else if f.kind.Composite? {
        assert ItemOk(s, f.kind, v);
        ChildLeaves(s, zero, m.typ, data, t, v.content);
      } else if !zero {
        ScalarField(s, zero, m.typ, data, t, v);
        assert MergedValue(s, f, Lookup(before.fields, t), Falsified(v)) == Falsified(v);
      }
    }
  }

  lemma LeftIsCopied(s: Schema, zero: bool, data: Val, m: Content, t: Tag)
    requires data.Sparse? && WellTyped(s, m)
    ensures
      var d, left := s[m.typ], Left(s, zero, data, m);
      && (Copied(d, m.fields, t) ==> ValueOk(s, d[t], m.fields[t]))
      && (Copied(d, left.fields, t) <==> Copied(d, m.fields, t) && LeftValue(s, zero, d[t], RawAt(zero, data, t), m.fields[t]).Some?)
      && (Copied(d, left.fields, t) ==> Some(left.fields[t]) == LeftValue(s, zero, d[t], RawAt(zero, data, t), m.fields[t]))
  {
    if t in m.fields && t in s[m.typ] {
      var f, v := s[m.typ][t], m.fields[t];
      TypedIsThere(s, f, v);
      var left := LeftValue(s, zero, f, RawAt(zero, data, t), v);
      if left.Some? { TypedIsThere(s, f, left.value); }
    }
  }

  /** What is decoded from the raw array later on: what was there, merged with what the merge left in it. */
  lemma {:induction false} MergeLeaves(s: Schema, zero: bool, data: Val, m: Content)
    requires WellTyped(s, m) && RawOk(s, zero, m.typ, data)
    ensures Decoded(s, zero, m.typ, RawAfter(s, zero, data, m)) == Merge(s, Decoded(s, zero, m.typ, data), Left(s, zero, data, m))
    decreases m, 1
  {
    var a, b := Decoded(s, zero, m.typ, RawAfter(s, zero, data, m)), Merge(s, Decoded(s, zero, m.typ, data), Left(s, zero, data, m));
    forall t ensures Lookup(a.fields, t) == Lookup(b.fields, t) {
      FieldLeaves(s, zero, data, m, t);
    }
    SameFields(a.fields, b.fields);
  }

  // ----- exactly when nothing is lost -----

  /**
   * All that the source brings is in the raw array after the merge. Without zero indexing only true
   * in a field of booleans is not. With zero indexing only what goes into lists, arrays and messages
   * that were there already is, and what was there with the same value.
   */
  predicate NothingLost(s: Schema, zero: bool, data: Val, m: Content)
    requires data.Sparse? && WellTyped(s, m)
    decreases m, 0
  {
    forall t :: t in m.fields && t in s[m.typ] && Copied(s[m.typ], m.fields, t) ==>
      KeptValue(s, zero, s[m.typ][t], RawAt(zero, data, t), m.fields[t])
  }

  predicate KeptValue(s: Schema, zero: bool, f: Field, raw: Option<Val>, v: Val)
    requires ValueOk(s, f, v)
    decreases v, 1
  {
    && (zero ==> raw.Some?)
    && if f.repeated then Bool(true) !in v.items
       else
         assert ItemOk(s, f.kind, v);
         if f.kind.Composite? then raw.Some? && raw.value.Sparse? ==> NothingLost(s, zero, raw.value, v.content)
         else if zero then DecodedItem(s, zero, f, raw.value) == v
         else v != Bool(true)
  }

  lemma ListKept(s: Schema, f: Field, prior: Option<Val>, v: Val)
    requires f.repeated && ValueOk(s, f, v)
    ensures ValueOk(s, f, FalsifiedList(v))
    ensures MergedValue(s, f, prior, FalsifiedList(v)) == MergedValue(s, f, prior, v) <==> Bool(true) !in v.items
  {
    FalsifiedOk(s, f, v);
    var x, y := ClonedItems(s, f, FalsifiedList(v)), ClonedItems(s, f, v);
    if Bool(true) in v.items {
      var i :| 0 <= i < |v.items| && v.items[i] == Bool(true);
      assert y[i] == ClonedItem(s, f.kind, v.items[i]) == Bool(true);
      assert x[i] == Falsified(y[i]) == Bool(false);
      var front := Items(prior);
      assert (front + x)[|front| + i] == x[i] && (front + y)[|front| + i] == y[i];
    } else {
      assert FalsifiedList(v).items == v.items;
    }
  }

  lemma {:induction false} ChildKept(s: Schema, zero: bool, typ: TypeName, data: Val, t: Tag, m: Content)
    requires RawOk(s, zero, typ, data) && t in Fields(s, typ) && !Fields(s, typ)[t].repeated
    requires Fields(s, typ)[t].kind == Composite(m.typ) && WellTyped(s, m) && (zero ==> RawAt(zero, data, t).Some?)
    ensures
      var f, raw, prior := Fields(s, typ)[t], RawAt(zero, data, t), Lookup(Decoded(s, zero, typ, data).fields, t);
      var left := LeftValue(s, zero, f, raw, Msg(m));
      left.Some? && (MergedValue(s, f, prior, left.value) == MergedValue(s, f, prior, Msg(m)) <==> KeptValue(s, zero, f, raw, Msg(m)))
    decreases m, 2
  {
    var f, raw := Fields(s, typ)[t], RawAt(zero, data, t);
    PriorChild(s, zero, typ, data, t);
    if raw.Some? && raw.value.Sparse? { MergeKeeps(s, zero, raw.value, m); }
    assert ItemOk(s, f.kind, Msg(m));
  }

  lemma {:induction false} FieldKept(s: Schema, zero: bool, data: Val, m: Content, t: Tag)
    requires WellTyped(s, m) && RawOk(s, zero, m.typ, data)
    ensures Copied(s[m.typ], m.fields, t) ==> ValueOk(s, s[m.typ][t], m.fields[t])
    ensures
      var before := Decoded(s, zero, m.typ, data);
      Lookup(Merge(s, before, Left(s, zero, data, m)).fields, t) == Lookup(Merge(s, before, m).fields, t) <==>
        (Copied(s[m.typ], m.fields, t) ==> KeptValue(s, zero, s[m.typ][t], RawAt(zero, data, t), m.fields[t]))
    decreases m, 0
  {
    var before, left := Decoded(s, zero, m.typ, data), Left(s, zero, data, m);
    MergedField(s, before, left, t);
    MergedField(s, before, m, t);
    LeftIsCopied(s, zero, data, m, t);
    FreshHolds(s, zero, m.typ, data, t);
    if Copied(s[m.typ], m.fields, t) {
      var f, v, raw, prior := s[m.typ][t], m.fields[t], RawAt(zero, data, t), Lookup(before.fields, t);
      TypedIsThere(s, f, v);
      if zero && raw.None? {
      } else if f.repeated {
        ListKept(s, f, prior, v);
      } else if f.kind.Composite? {
        assert ItemOk(s, f.kind, v);
        ChildKept(s, zero, m.typ, data, t, v.content);
      } else {
        assert ItemOk(s, f.kind, v);
        assert raw.Some? ==> DecodedField(s, zero, m.typ, t, raw.value) == DecodedItem(s, zero, f, raw.value);
      }
    }
  }

  lemma {:induction false} MergeKeeps(s: Schema, zero: bool, data: Val, m: Content)
    requires WellTyped(s, m) && RawOk(s, zero, m.typ, data)
    ensures
      var before := Decoded(s, zero, m.typ, data);
      Merge(s, before, Left(s, zero, data, m)) == Merge(s, before, m) <==> NothingLost(s, zero, data, m)
    decreases m, 1
  {
    var before := Decoded(s, zero, m.typ, data);
    var a, b := Merge(s, before, Left(s, zero, data, m)), Merge(s, before, m);
    forall t ensures Lookup(a.fields, t) == Lookup(b.fields, t) <==>
        (Copied(s[m.typ], m.fields, t) ==>
          ValueOk(s, s[m.typ][t], m.fields[t]) && KeptValue(s, zero, s[m.typ][t], RawAt(zero, data, t), m.fields[t]))
    {
      FieldKept(s, zero, data, m, t);
    }
    if NothingLost(s, zero, data, m) {
      SameFields(a.fields, b.fields);
    }
  }

  // ----- two merges into one sub-message of a lazy message -----

  /** A known field that holds one sub-message, which is still serialized. */
  predicate HoldsSerialized(st: Store, t: Tag, typ: TypeName) {
    && st.memo.Some? && t in st.Descriptor() && !st.Descriptor()[t].repeated && st.Descriptor()[t].kind == Composite(typ)
    && t in st.values && RawOk(st.schema, st.zero, typ, st.values[t])
  }

  function MergeSub(st: Store, t: Tag, m: Content): Store
    requires t in st.Descriptor() && !st.Descriptor()[t].repeated && st.Descriptor()[t].kind == Composite(m.typ) && WellTyped(st.schema, m)
  {
    assert ItemOk(st.schema, st.Descriptor()[t].kind, Msg(m));
    MergeField(st, t, Msg(m))
  }

  lemma MergedOnce(st: Store, t: Tag, m: Content)
    requires HoldsSerialized(st, t, m.typ) && WellTyped(st.schema, m)
    ensures
      var r := MergeSub(st, t, m);
      && r.schema == st.schema && r.typ == st.typ && r.zero == st.zero && r.memo.Some?
      && t in r.values && r.values[t] == RawAfter(st.schema, st.zero, st.values[t], m)
      && Seen(r, t) == Msg(View(st.schema, st.zero, st.values[t], m))
  {
    assert MergeSub(st, t, m) == MergeChild(Forgotten(st, t), t, m);
  }

  /** A merge leaves an array that can be decoded. */
  lemma {:induction false} StaysOk(s: Schema, zero: bool, data: Val, m: Content)
    requires WellTyped(s, m) && RawOk(s, zero, m.typ, data)
    ensures RawOk(s, zero, m.typ, RawAfter(s, zero, data, m))
    decreases m, 1
  {
    hide RawAfter, RawFieldOk, WellTyped;
    var entries := RawAfter(s, zero, data, m).entries;
    forall t | t in Fields(s, m.typ) && t - Shift(zero) in entries && Present(entries[t - Shift(zero)])
      ensures RawFieldOk(s, zero, Fields(s, m.typ)[t], entries[t - Shift(zero)])
    {
      FieldStaysOk(s, zero, data, m, t);
    }
  }

  lemma {:induction false} FieldStaysOk(s: Schema, zero: bool, data: Val, m: Content, t: Tag)
    requires WellTyped(s, m) && RawOk(s, zero, m.typ, data) && t in Fields(s, m.typ)
    requires
      var entries := RawAfter(s, zero, data, m).entries;
      t - Shift(zero) in entries && Present(entries[t - Shift(zero)])
    ensures RawFieldOk(s, zero, Fields(s, m.typ)[t], RawAfter(s, zero, data, m).entries[t - Shift(zero)])
    decreases m, 0
  {
    RawFieldAfter(s, zero, data, m, t);
    FreshHolds(s, zero, m.typ, data, t);
    if Copied(s[m.typ], m.fields, t) {
      var f, v, raw := s[m.typ][t], m.fields[t], RawAt(zero, data, t);
      TypedIsThere(s, f, v);
      if f.repeated {
        ClonesMatch(s, f, v);
        AddAllAppends(Forgotten(Fresh(s, zero, m.typ, data), t), t, ClonedItems(s, f, v));
      } else if f.kind.Composite? {
        assert ItemOk(s, f.kind, v);
        ChildField(s, zero, m.typ, data, t, v.content);
        MergeIsWellTyped(s, Empty(v.content.typ), v.content);
        RawChild(s, zero, m.typ, data, t);
        if raw.Some? && raw.value.Sparse? {
          StaysOk(s, zero, raw.value, v.content);
        } else if raw.Some? {
          MergeIsWellTyped(s, raw.value.content, v.content);
        }
      }
    }
  }

  /**
   * Merging a and then b into a sub-message that is still serialized: for the second merge it is
   * deserialized anew, from what the first one left in the raw array.
   */
  lemma SecondMergeStartsFromWhatIsLeft(st: Store, t: Tag, a: Content, b: Content)
    requires HoldsSerialized(st, t, a.typ) && a.typ == b.typ && WellTyped(st.schema, a) && WellTyped(st.schema, b)
    ensures
      var s, zero, raw := st.schema, st.zero, st.values[t];
      var twice := MergeSub(MergeSub(st, t, a), t, b);
      && t in twice.values
      && Seen(twice, t) == Msg(Merge(s, Merge(s, Decoded(s, zero, a.typ, raw), Left(s, zero, raw, a)),
                                     Shown(s, zero, RawAfter(s, zero, raw, a), b)))
  {
    var s, zero, raw := st.schema, st.zero, st.values[t];
    MergedOnce(st, t, a);
    StaysOk(s, zero, raw, a);
    MergedOnce(MergeSub(st, t, a), t, b);
    MergeLeaves(s, zero, raw, a);
    MergeShows(s, zero, RawAfter(s, zero, raw, a), b);
  }

  /** After merging a and then b the sub-message holds what merging both gives. */
  predicate BothCount(st: Store, t: Tag, a: Content, b: Content)
    requires HoldsSerialized(st, t, a.typ) && a.typ == b.typ && WellTyped(st.schema, a) && WellTyped(st.schema, b)
  {
    var s, zero, raw := st.schema, st.zero, st.values[t];
    var twice := MergeSub(MergeSub(st, t, a), t, b);
    && t in twice.values
    && Seen(twice, t) == Msg(Merge(s, Merge(s, Decoded(s, zero, a.typ, raw), a), Shown(s, zero, RawAfter(s, zero, raw, a), b)))
  }

  /** Whatever is merged second, the first merge counts, exactly when it left all it brought in the raw array. */
  lemma FirstMergeCountsExactlyWhen(st: Store, t: Tag, a: Content)
    requires HoldsSerialized(st, t, a.typ) && WellTyped(st.schema, a)
    ensures NothingLost(st.schema, st.zero, st.values[t], a) <==>
      forall b: Content :: b.typ == a.typ && WellTyped(st.schema, b) ==> BothCount(st, t, a, b)
  {
    var s, zero, raw := st.schema, st.zero, st.values[t];
    var before := Decoded(s, zero, a.typ, raw);
    MergeKeeps(s, zero, raw, a);
    if NothingLost(s, zero, raw, a) {
      forall b: Content | b.typ == a.typ && WellTyped(s, b) ensures BothCount(st, t, a, b) {
        SecondMergeStartsFromWhatIsLeft(st, t, a, b);
      }
    } else {
      var none := Empty(a.typ);
      assert WellTyped(s, none);
      SecondMergeStartsFromWhatIsLeft(st, t, a, none);
      var shown := Shown(s, zero, RawAfter(s, zero, raw, a), none);
      assert shown.fields == map[];
      assert shown == none;
      EmptyIsRightIdentity(s, Merge(s, before, Left(s, zero, raw, a)), a.typ);
      EmptyIsRightIdentity(s, Merge(s, before, a), a.typ);
      assert !BothCount(st, t, a, none);
    }
  }

  /** A sub-message that is set already, or not there yet, takes in every merge, in a lazy message as in an eager one. */
  lemma MessagesTakeInEveryMerge(st: Store, t: Tag, a: Content, b: Content)
    requires t in st.Descriptor() && !st.Descriptor()[t].repeated && st.Descriptor()[t].kind == Composite(a.typ)
    requires a.typ == b.typ && WellTyped(st.schema, a) && WellTyped(st.schema, b)
    requires t in st.values ==> st.values[t].Msg?
    ensures
      var s, twice := st.schema, MergeSub(MergeSub(st, t, a), t, b);
      && t in twice.values && Seen(twice, t) == Msg(Merge(s, Merge(s, Child(Lookup(st.values, t), a.typ), a), b))
  {
    SetOrMerged(st, t, a);
    SetOrMerged(MergeSub(st, t, a), t, b);
  }

  lemma SetOrMerged(st: Store, t: Tag, m: Content)
    requires t in st.Descriptor() && !st.Descriptor()[t].repeated && st.Descriptor()[t].kind == Composite(m.typ)
    requires WellTyped(st.schema, m) && (t in st.values ==> st.values[t].Msg?)
    ensures
      var r, merged := MergeSub(st, t, m), Msg(Merge(st.schema, Child(Lookup(st.values, t), m.typ), m));
      t in r.values && r.values[t] == merged && Seen(r, t) == merged
  {
    assert MergeSub(st, t, m) == MergeChild(Forgotten(st, t), t, m);
  }
}
