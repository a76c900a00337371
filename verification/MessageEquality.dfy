/**
 * equals and clone of javascript/phonenumbernormalizer/js/message.js: equals compares what two
 * messages know of each other, and clone keeps that exactly when no present list is empty.
 */
module MessageEquality {
  import opened ProtoMessages

  predicate SameItem(s: Schema, kind: Kind, v: Val, w: Val)
    requires ItemOk(s, kind, v) && ItemOk(s, kind, w)
    decreases v, 1
  {
    if kind.Composite? then Equals(s, v.content, w.content) else v == w
  }

  predicate SameValue(s: Schema, f: Field, v: Val, w: Val)
    requires ValueOk(s, f, v) && ValueOk(s, f, w)
    decreases v, 2
  {
    if f.repeated then
      |v.items| == |w.items| && forall i :: 0 <= i < |v.items| ==> SameItem(s, f.kind, v.items[i], w.items[i])
    else
      assert ItemOk(s, f.kind, v) && ItemOk(s, f.kind, w);
      SameItem(s, f.kind, v, w)
  }

  /** a.equals(b): unknown fields do not matter. */
  predicate Equals(s: Schema, a: Content, b: Content)
    requires WellTyped(s, a) && WellTyped(s, b)
    decreases a, 0
  {
    && a.typ == b.typ
    && forall t :: t in s[a.typ] ==>
      && Has(a.fields, t) == Has(b.fields, t)
      && (Has(a.fields, t) ==> SameValue(s, s[a.typ][t], a.fields[t], b.fields[t]))
  }

  // ----- the known part of a message -----

  function KnownItem(s: Schema, kind: Kind, v: Val): Val
    requires ItemOk(s, kind, v)
    decreases v, 1
  {
    if v.Msg? then Msg(Known(s, v.content)) else v
  }

  function KnownItems(s: Schema, f: Field, v: Val): (items: seq<Val>)
    requires f.repeated && ValueOk(s, f, v)
    ensures |items| == |v.items|
    decreases v, 2
  {
    seq(|v.items|, i requires 0 <= i < |v.items| => KnownItem(s, f.kind, v.items[i]))
  }

  function KnownValue(s: Schema, f: Field, v: Val): Val
    requires ValueOk(s, f, v)
    decreases v, 3
  {
    if f.repeated then List(KnownItems(s, f, v))
    else
      assert ItemOk(s, f.kind, v);
      KnownItem(s, f.kind, v)
  }

  /** The message without its unknown fields, at every depth. */
  function Known(s: Schema, a: Content): (k: Content)
    requires WellTyped(s, a)
    ensures k.typ == a.typ
    decreases a, 0
  {
    Content(a.typ, map t | t in a.fields && t in s[a.typ] :: KnownValue(s, s[a.typ][t], a.fields[t]))
  }

  lemma KnownField(s: Schema, a: Content, t: Tag)
    requires WellTyped(s, a)
    ensures Lookup(Known(s, a).fields, t) ==
      if t in a.fields && t in s[a.typ] then Some(KnownValue(s, s[a.typ][t], a.fields[t])) else None
  {
  }

  lemma {:induction false} KnownItemOk(s: Schema, kind: Kind, v: Val)
    requires ItemOk(s, kind, v)
    ensures ItemOk(s, kind, KnownItem(s, kind, v))
    decreases v, 1
  {
    if v.Msg? { KnownIsWellTyped(s, v.content); }
  }

  lemma {:induction false} KnownValueOk(s: Schema, f: Field, v: Val)
    requires ValueOk(s, f, v)
    ensures ValueOk(s, f, KnownValue(s, f, v))
    decreases v, 2
  {
    if f.repeated {
      forall i | 0 <= i < |v.items| ensures ItemOk(s, f.kind, KnownItem(s, f.kind, v.items[i])) {
        KnownItemOk(s, f.kind, v.items[i]);
      }
    } else {
      assert ItemOk(s, f.kind, v);
      KnownItemOk(s, f.kind, v);
    }
  }

  lemma {:induction false} KnownIsWellTyped(s: Schema, a: Content)
    requires WellTyped(s, a)
    ensures WellTyped(s, Known(s, a))
    decreases a, 0
  {
    forall t | t in a.fields && t in s[a.typ] ensures ValueOk(s, s[a.typ][t], KnownValue(s, s[a.typ][t], a.fields[t])) {
      KnownValueOk(s, s[a.typ][t], a.fields[t]);
    }
  }

  // ----- equals is equality of the known parts -----

  lemma {:induction false} ItemsEqual(s: Schema, kind: Kind, v: Val, w: Val)
    requires ItemOk(s, kind, v) && ItemOk(s, kind, w)
    ensures SameItem(s, kind, v, w) <==> KnownItem(s, kind, v) == KnownItem(s, kind, w)
    decreases v, 1
  {
    if kind.Composite? { EqualsComparesKnown(s, v.content, w.content); }
  }

  lemma {:induction false} ValuesEqual(s: Schema, f: Field, v: Val, w: Val)
    requires ValueOk(s, f, v) && ValueOk(s, f, w)
    ensures SameValue(s, f, v, w) <==> KnownValue(s, f, v) == KnownValue(s, f, w)
    decreases v, 2
  {
    if f.repeated {
      var k, l := KnownItems(s, f, v), KnownItems(s, f, w);
      if |v.items| == |w.items| {
        forall i | 0 <= i < |v.items| ensures SameItem(s, f.kind, v.items[i], w.items[i]) <==> k[i] == l[i] {
          ItemsEqual(s, f.kind, v.items[i], w.items[i]);
        }
      }
    } else {
      assert ItemOk(s, f.kind, v) && ItemOk(s, f.kind, w);
      ItemsEqual(s, f.kind, v, w);
    }
  }

  /** Two messages are equal exactly when they are the same up to unknown fields; so equals is an equivalence. */
  lemma {:induction false} EqualsComparesKnown(s: Schema, a: Content, b: Content)
    requires WellTyped(s, a) && WellTyped(s, b)
    ensures Equals(s, a, b) <==> Known(s, a) == Known(s, b)
    decreases a, 0
  {
    if a.typ == b.typ {
      var d, k, l := s[a.typ], Known(s, a).fields, Known(s, b).fields;
      forall t | t in d
        ensures Lookup(k, t) == Lookup(l, t) <==>
          Has(a.fields, t) == Has(b.fields, t) && (Has(a.fields, t) ==> SameValue(s, d[t], a.fields[t], b.fields[t]))
      {
        FieldsEqual(s, a, b, t);
      }
      if Equals(s, a, b) {
        SameFields(k, l);
      }
    }
  }

  lemma {:induction false} FieldsEqual(s: Schema, a: Content, b: Content, t: Tag)
    requires WellTyped(s, a) && WellTyped(s, b) && a.typ == b.typ && t in s[a.typ]
    ensures Lookup(Known(s, a).fields, t) == Lookup(Known(s, b).fields, t) <==>
      Has(a.fields, t) == Has(b.fields, t) && (Has(a.fields, t) ==> SameValue(s, s[a.typ][t], a.fields[t], b.fields[t]))
    decreases a, 0, 0
  {
    var f := s[a.typ][t];
    KnownField(s, a, t);
    KnownField(s, b, t);
    if t in a.fields && t in b.fields {
      ValuesEqual(s, f, a.fields[t], b.fields[t]);
    }
    if t in a.fields { TypedIsPresent(s, f, a.fields[t]); }
    if t in b.fields { TypedIsPresent(s, f, b.fields[t]); }
  }

  lemma TypedIsPresent(s: Schema, f: Field, v: Val)
    requires ValueOk(s, f, v)
    ensures Present(v)
  {
    assert !f.repeated ==> ItemOk(s, f.kind, v);
  }

  lemma EqualsIsAnEquivalence(s: Schema, a: Content, b: Content, c: Content)
    requires WellTyped(s, a) && WellTyped(s, b) && WellTyped(s, c)
    ensures Equals(s, a, a)
    ensures Equals(s, a, b) == Equals(s, b, a)
    ensures Equals(s, a, b) && Equals(s, b, c) ==> Equals(s, a, c)
  {
    EqualsComparesKnown(s, a, a);
    EqualsComparesKnown(s, a, b);
    EqualsComparesKnown(s, b, a);
    EqualsComparesKnown(s, b, c);
    EqualsComparesKnown(s, a, c);
  }

  // ----- mergeFrom does not look at unknown fields -----

  lemma {:induction false} ClonedItemKnown(s: Schema, kind: Kind, v: Val)
    requires ItemOk(s, kind, v)
    ensures ItemOk(s, kind, ClonedItem(s, kind, v)) && ItemOk(s, kind, KnownItem(s, kind, v))
    ensures KnownItem(s, kind, ClonedItem(s, kind, v)) == ClonedItem(s, kind, KnownItem(s, kind, v))
    decreases v, 1
  {
    ClonedItemOk(s, kind, v);
    KnownItemOk(s, kind, v);
    if v.Msg? {
      KnownOfMerge(s, Empty(v.content.typ), v.content);
      assert Known(s, Empty(v.content.typ)) == Empty(v.content.typ);
    }
  }

  lemma {:induction false} ClonedItemsKnown(s: Schema, f: Field, v: Val)
    requires f.repeated && ValueOk(s, f, v)
    ensures ValueOk(s, f, List(ClonedItems(s, f, v))) && ValueOk(s, f, KnownValue(s, f, v))
    ensures KnownItems(s, f, List(ClonedItems(s, f, v))) == ClonedItems(s, f, KnownValue(s, f, v))
    decreases v, 2
  {
    forall i | 0 <= i < |v.items| ensures
      && ItemOk(s, f.kind, ClonedItem(s, f.kind, v.items[i]))
      && ItemOk(s, f.kind, KnownItem(s, f.kind, v.items[i]))
      && KnownItem(s, f.kind, ClonedItem(s, f.kind, v.items[i])) == ClonedItem(s, f.kind, KnownItem(s, f.kind, v.items[i]))
    {
      ClonedItemKnown(s, f.kind, v.items[i]);
    }
  }

  lemma KnownOfAppended(s: Schema, f: Field, v: Val, w: Val)
    requires f.repeated && ValueOk(s, f, v) && ValueOk(s, f, w)
    ensures ValueOk(s, f, List(v.items + w.items))
    ensures KnownItems(s, f, List(v.items + w.items)) == KnownItems(s, f, v) + KnownItems(s, f, w)
  {
  }

  function KnownOption(s: Schema, f: Field, v: Option<Val>): Option<Val>
    requires v.Some? ==> ValueOk(s, f, v.value)
  {
    if v.Some? then Some(KnownValue(s, f, v.value)) else None
  }

  lemma {:induction false} MergedValueKnown(s: Schema, f: Field, prior: Option<Val>, v: Val)
    requires ValueOk(s, f, v) && (prior.Some? ==> ValueOk(s, f, prior.value))
    ensures ValueOk(s, f, MergedValue(s, f, prior, v)) && ValueOk(s, f, KnownValue(s, f, v))
    ensures KnownValue(s, f, MergedValue(s, f, prior, v)) == MergedValue(s, f, KnownOption(s, f, prior), KnownValue(s, f, v))
    decreases v, 3
  {
    MergedValueOk(s, f, prior, v);
    KnownValueOk(s, f, v);
    if f.repeated {
      ClonedItemsKnown(s, f, v);
      KnownOfAppended(s, f, List(Items(prior)), List(ClonedItems(s, f, v)));
      assert KnownItems(s, f, List([])) == [];
    } else {
      assert ItemOk(s, f.kind, v) && (prior.Some? ==> ItemOk(s, f.kind, prior.value));
      if f.kind.Composite? {
        assert WellTyped(s, v.content);
        var typ := f.kind.typ;
        KnownOfMerge(s, Child(prior, typ), v.content);
        assert Known(s, Empty(typ)) == Empty(typ);
        assert KnownValue(s, f, v) == Msg(Known(s, v.content));
        assert prior.Some? ==> KnownValue(s, f, prior.value) == Msg(Known(s, prior.value.content));
        assert Child(KnownOption(s, f, prior), typ) == Known(s, Child(prior, typ));
        assert KnownValue(s, f, MergedValue(s, f, prior, v)) == Msg(Known(s, Merge(s, Child(prior, typ), v.content)));
      }
    }
  }

  /** The known part of a merge is the merge of the known parts. */
  lemma {:induction false} KnownOfMerge(s: Schema, a: Content, b: Content)
    requires WellTyped(s, a) && WellTyped(s, b) && a.typ == b.typ
    ensures WellTyped(s, Merge(s, a, b)) && WellTyped(s, Known(s, b))
    ensures Known(s, Merge(s, a, b)) == Merge(s, Known(s, a), Known(s, b))
    decreases b, 0
  {
    MergeIsWellTyped(s, a, b);
    KnownIsWellTyped(s, b);
    var left, right := Known(s, Merge(s, a, b)), Merge(s, Known(s, a), Known(s, b));
    forall t ensures Lookup(left.fields, t) == Lookup(right.fields, t) {
      KnownOfMergedField(s, a, b, t);
    }
    SameFields(left.fields, right.fields);
  }

  lemma {:induction false} KnownOfMergedField(s: Schema, a: Content, b: Content, t: Tag)
    requires WellTyped(s, a) && WellTyped(s, b) && a.typ == b.typ
    requires WellTyped(s, Merge(s, a, b)) && WellTyped(s, Known(s, b))
    ensures Lookup(Known(s, Merge(s, a, b)).fields, t) == Lookup(Merge(s, Known(s, a), Known(s, b)).fields, t)
    decreases b, 0, 0
  {
    var d := s[b.typ];
    KnownField(s, Merge(s, a, b), t);
    KnownField(s, a, t);
    KnownField(s, b, t);
    MergedField(s, a, b, t);
    MergedField(s, Known(s, a), Known(s, b), t);
    CopiedIsKnown(s, b, t);
    if Copied(d, b.fields, t) {
      MergedValueKnown(s, d[t], Lookup(a.fields, t), b.fields[t]);
    }
    hide Merge, MergedValue, WellTyped, ValueOk, Known, KnownValue;
  }

  lemma CopiedIsKnown(s: Schema, b: Content, t: Tag)
    requires WellTyped(s, b) && WellTyped(s, Known(s, b))
    ensures Copied(s[b.typ], Known(s, b).fields, t) <==> Copied(s[b.typ], b.fields, t)
  {
    KnownField(s, b, t);
    if t in b.fields && t in s[b.typ] {
      var f, v := s[b.typ][t], b.fields[t];
      KnownValueOk(s, f, v);
      TypedIsPresent(s, f, v);
      TypedIsPresent(s, f, KnownValue(s, f, v));
    }
  }

  /** Equal targets and equal sources merge to equal messages. */
  lemma MergeRespectsEquals(s: Schema, a: Content, b: Content, c: Content, d: Content)
    requires WellTyped(s, a) && WellTyped(s, b) && WellTyped(s, c) && WellTyped(s, d) && a.typ == c.typ
    requires Equals(s, a, b) && Equals(s, c, d)
    ensures WellTyped(s, Merge(s, a, c)) && WellTyped(s, Merge(s, b, d))
    ensures Equals(s, Merge(s, a, c), Merge(s, b, d))
  {
    EqualsComparesKnown(s, a, b);
    EqualsComparesKnown(s, c, d);
    KnownOfMerge(s, a, c);
    KnownOfMerge(s, b, d);
    EqualsComparesKnown(s, Merge(s, a, c), Merge(s, b, d));
  }

  // ----- clone -----

  predicate NoEmptyItem(s: Schema, kind: Kind, v: Val)
    requires ItemOk(s, kind, v)
    decreases v, 1
  {
    v.Msg? ==> NoEmptyList(s, v.content)
  }

  predicate NoEmptyValue(s: Schema, f: Field, v: Val)
    requires ValueOk(s, f, v)
    decreases v, 2
  {
    if f.repeated then v.items != [] && forall i :: 0 <= i < |v.items| ==> NoEmptyItem(s, f.kind, v.items[i])
    else
      assert ItemOk(s, f.kind, v);
      NoEmptyItem(s, f.kind, v)
  }

  /** No repeated field, at any depth, is present without items. */
  predicate NoEmptyList(s: Schema, a: Content)
    requires WellTyped(s, a)
    decreases a, 0
  {
    forall t :: t in a.fields && t in s[a.typ] ==> NoEmptyValue(s, s[a.typ][t], a.fields[t])
  }

  lemma {:induction false} ItemCloneIsKnown(s: Schema, kind: Kind, v: Val)
    requires ItemOk(s, kind, v)
    ensures ClonedItem(s, kind, v) == KnownItem(s, kind, v) <==> NoEmptyItem(s, kind, v)
    decreases v, 1
  {
    if v.Msg? { CloneIsKnown(s, v.content); }
  }

  lemma {:induction false} ValueCloneIsKnown(s: Schema, f: Field, v: Val)
    requires ValueOk(s, f, v)
    ensures v != List([]) || !f.repeated ==>
      (MergedValue(s, f, None, v) == KnownValue(s, f, v) <==> NoEmptyValue(s, f, v))
    decreases v, 2
  {
    if f.repeated {
      var c, k := ClonedItems(s, f, v), KnownItems(s, f, v);
      forall i | 0 <= i < |v.items| ensures c[i] == k[i] <==> NoEmptyItem(s, f.kind, v.items[i]) {
        ItemCloneIsKnown(s, f.kind, v.items[i]);
      }
      assert [] + c == c;
    } else {
      assert ItemOk(s, f.kind, v);
      if f.kind.Composite? {
        CloneIsKnown(s, v.content);
      }
    }
  }

  /** A clone is the known part of the original exactly when no present list is empty. */
  lemma {:induction false} CloneIsKnown(s: Schema, a: Content)
    requires WellTyped(s, a)
    ensures Clone(s, a) == Known(s, a) <==> NoEmptyList(s, a)
    decreases a, 0
  {
    var c, k, d := Clone(s, a).fields, Known(s, a).fields, s[a.typ];
    forall t ensures Lookup(c, t) == Lookup(k, t) <==>
        (t in a.fields && t in d ==> NoEmptyValue(s, d[t], a.fields[t]))
    {
      FieldCloneIsKnown(s, a, t);
    }
    if NoEmptyList(s, a) { SameFields(c, k); }
  }

  lemma {:induction false} FieldCloneIsKnown(s: Schema, a: Content, t: Tag)
    requires WellTyped(s, a)
    ensures Lookup(Clone(s, a).fields, t) == Lookup(Known(s, a).fields, t) <==>
      (t in a.fields && t in s[a.typ] ==> NoEmptyValue(s, s[a.typ][t], a.fields[t]))
    decreases a, 0, 0
  {
    KnownField(s, a, t);
    MergedField(s, Empty(a.typ), a, t);
    if t in a.fields && t in s[a.typ] {
      TypedIsPresent(s, s[a.typ][t], a.fields[t]);
      ValueCloneIsKnown(s, s[a.typ][t], a.fields[t]);
    }
  }

  // ----- mergeFrom copies nothing unknown -----

  lemma {:induction false} ClonedItemIgnores(s: Schema, kind: Kind, v: Val)
    requires ItemOk(s, kind, v)
    ensures ItemOk(s, kind, KnownItem(s, kind, v))
    ensures ClonedItem(s, kind, KnownItem(s, kind, v)) == ClonedItem(s, kind, v)
    decreases v, 1
  {
    KnownItemOk(s, kind, v);
    if v.Msg? { MergeIgnoresUnknown(s, Empty(v.content.typ), v.content); }
  }

  lemma {:induction false} MergedValueIgnores(s: Schema, f: Field, prior: Option<Val>, v: Val)
    requires ValueOk(s, f, v)
    ensures ValueOk(s, f, KnownValue(s, f, v))
    ensures MergedValue(s, f, prior, KnownValue(s, f, v)) == MergedValue(s, f, prior, v)
    decreases v, 2
  {
    KnownValueOk(s, f, v);
    if f.repeated {
      var k := KnownValue(s, f, v);
      forall i | 0 <= i < |v.items| ensures ClonedItem(s, f.kind, k.items[i]) == ClonedItem(s, f.kind, v.items[i]) {
        ClonedItemIgnores(s, f.kind, v.items[i]);
        assert k == List(KnownItems(s, f, v)) && KnownItems(s, f, v)[i] == KnownItem(s, f.kind, v.items[i]);
      }
      assert ClonedItems(s, f, k) == ClonedItems(s, f, v);
    } else {
      assert ItemOk(s, f.kind, v);
      if f.kind.Composite? { MergeIgnoresUnknown(s, Child(prior, f.kind.typ), v.content); }
    }
  }

  /** The unknown fields of a source, at any depth, do not reach the target. */
  lemma {:induction false} MergeIgnoresUnknown(s: Schema, a: Content, b: Content)
    requires WellTyped(s, b)
    ensures WellTyped(s, Known(s, b))
    ensures Merge(s, a, Known(s, b)) == Merge(s, a, b)
    decreases b, 0
  {
    KnownIsWellTyped(s, b);
    var k := Known(s, b);
    forall t ensures Lookup(Merge(s, a, k).fields, t) == Lookup(Merge(s, a, b).fields, t) {
      MergedField(s, a, k, t);
      MergedField(s, a, b, t);
      KnownField(s, b, t);
      CopiedIsKnown(s, b, t);
      if Copied(s[b.typ], b.fields, t) {
        MergedValueIgnores(s, s[b.typ][t], Lookup(a.fields, t), b.fields[t]);
      }
    }
    SameFields(Merge(s, a, k).fields, Merge(s, a, b).fields);
  }

  /** A clone equals the original exactly when no repeated field of it, at any depth, is present without items. */
  lemma CloneEqualsExactlyWhen(s: Schema, a: Content)
    requires WellTyped(s, a)
    ensures WellTyped(s, Clone(s, a))
    ensures Equals(s, Clone(s, a), a) <==> NoEmptyList(s, a)
  {
    var e := Empty(a.typ);
    MergeIsWellTyped(s, e, a);
    KnownOfMerge(s, e, a);
    assert Known(s, e) == e;
    MergeIgnoresUnknown(s, e, a);
    CloneIsKnown(s, a);
    EqualsComparesKnown(s, Clone(s, a), a);
  }

  /** Cloning a clone changes nothing. */
  lemma CloneIsIdempotent(s: Schema, a: Content)
    requires WellTyped(s, a)
    ensures WellTyped(s, Clone(s, a)) && Clone(s, Clone(s, a)) == Clone(s, a)
  {
    var e := Empty(a.typ);
    MergeIsWellTyped(s, e, a);
    MergeIsAssociative(s, e, e, a);
    EmptyIsRightIdentity(s, e, a.typ);
  }

  // ----- no message built through the interface has an empty list -----

  lemma {:induction false} ClonedItemNotEmpty(s: Schema, kind: Kind, v: Val)
    requires ItemOk(s, kind, v)
    ensures ItemOk(s, kind, ClonedItem(s, kind, v)) && NoEmptyItem(s, kind, ClonedItem(s, kind, v))
    decreases v, 1
  {
    ClonedItemOk(s, kind, v);
    if v.Msg? { MergeNeverEmpty(s, Empty(v.content.typ), v.content); }
  }

  lemma {:induction false} MergedValueNotEmpty(s: Schema, f: Field, prior: Option<Val>, v: Val)
    requires ValueOk(s, f, v) && (prior.Some? ==> ValueOk(s, f, prior.value) && NoEmptyValue(s, f, prior.value))
    requires f.repeated ==> v.items != []
    ensures ValueOk(s, f, MergedValue(s, f, prior, v)) && NoEmptyValue(s, f, MergedValue(s, f, prior, v))
    decreases v, 2
  {
    MergedValueOk(s, f, prior, v);
    if f.repeated {
      forall i | 0 <= i < |v.items| ensures
        ItemOk(s, f.kind, ClonedItem(s, f.kind, v.items[i])) && NoEmptyItem(s, f.kind, ClonedItem(s, f.kind, v.items[i]))
      {
        ClonedItemNotEmpty(s, f.kind, v.items[i]);
      }
    } else {
      assert ItemOk(s, f.kind, v) && (prior.Some? ==> ItemOk(s, f.kind, prior.value));
      if f.kind.Composite? {
        assert WellTyped(s, v.content);
        MergeNeverEmpty(s, Child(prior, f.kind.typ), v.content);
      }
    }
  }

  /** mergeFrom brings no empty list into a message, whatever the source holds. */
  lemma {:induction false} MergeNeverEmpty(s: Schema, a: Content, b: Content)
    requires WellTyped(s, a) && WellTyped(s, b) && a.typ == b.typ && NoEmptyList(s, a)
    ensures WellTyped(s, Merge(s, a, b)) && NoEmptyList(s, Merge(s, a, b))
    decreases b, 0
  {
    MergeIsWellTyped(s, a, b);
    var c := Merge(s, a, b);
    forall t | t in c.fields && t in s[c.typ] ensures NoEmptyValue(s, s[c.typ][t], c.fields[t]) {
      MergedField(s, a, b, t);
      if Copied(s[b.typ], b.fields, t) {
        MergedValueNotEmpty(s, s[b.typ][t], Lookup(a.fields, t), b.fields[t]);
      }
    }
  }
}
