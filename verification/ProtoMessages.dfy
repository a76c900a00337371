/**
 * The messages of javascript/phonenumbernormalizer/js/message.js as values, and the algebra of
 * mergeFrom, copyFrom, clone and equals on them.
 */
module ProtoMessages {
  type Tag = int
  type TypeName = string

  datatype Option<T> = None | Some(value: T)

  /** The native type of a field. */
  datatype Kind = Number | Text | Boolean | Enum | Composite(typ: TypeName)

  /** A field descriptor; convert is deserializationConversionPermitted, fallback the default value. */
  datatype Field = Field(name: string, repeated: bool, kind: Kind, convert: bool, fallback: Val)

  type Descriptor = map<Tag, Field>
  type Schema = map<TypeName, Descriptor>

  /** The properties of plain objects in their order; a key of digits stands for a tag. */
  datatype Key = ByTag(tag: int) | ByName(name: string)
  datatype Member = Member(key: Key, value: Val)

  /**
   * JavaScript values. An array is a List when it is used as a list and Sparse when its indices
   * are tags; a message stands for its contents.
   */
  datatype Val = Undef | Null | Num(n: int) | Str(s: string) | Bool(b: bool)
               | List(items: seq<Val>) | Sparse(entries: map<int, Val>) | Object(members: seq<Member>)
               | Msg(content: Content)

  /** The type of a message and its values_. */
  datatype Content = Content(typ: TypeName, fields: map<Tag, Val>)

  function Empty(typ: TypeName): Content {
    Content(typ, map[])
  }

  /** Neither undefined nor null. */
  predicate Present(v: Val) {
    v != Undef && v != Null
  }

  /** has$Value */
  predicate Has(fields: map<Tag, Val>, t: Tag) {
    t in fields && Present(fields[t])
  }

  // ----- well-typed messages -----

  predicate ItemOk(s: Schema, kind: Kind, v: Val)
    decreases v, 0
  {
    match kind
    case Number => v.Num?
    case Enum => v.Num?
    case Text => v.Str?
    case Boolean => v.Bool?
    case Composite(typ) => v.Msg? && v.content.typ == typ && WellTyped(s, v.content)
  }

  predicate ValueOk(s: Schema, f: Field, v: Val)
    decreases v, 1
  {
    if f.repeated then v.List? && forall i :: 0 <= i < |v.items| ==> ItemOk(s, f.kind, v.items[i])
    else ItemOk(s, f.kind, v)
  }

  /** What checkFieldType_ lets into a message; unknown fields may hold anything. */
  predicate WellTyped(s: Schema, c: Content)
    decreases c, 0
  {
    c.typ in s && forall t :: t in c.fields && t in s[c.typ] ==> ValueOk(s, s[c.typ][t], c.fields[t])
  }

  /** The sub-message a composite field holds, or the new one clone starts from. */
  function Child(prior: Option<Val>, typ: TypeName): Content {
    if prior.Some? && prior.value.Msg? then prior.value.content else Empty(typ)
  }

  function Items(prior: Option<Val>): seq<Val> {
    if prior.Some? && prior.value.List? then prior.value.items else []
  }

  function Lookup(fields: map<Tag, Val>, t: Tag): Option<Val> {
    if t in fields then Some(fields[t]) else None
  }

  // ----- mergeFrom -----

  /** The fields of b that mergeFrom copies: the known ones, except a repeated field without items. */
  predicate Copied(d: Descriptor, fields: map<Tag, Val>, t: Tag) {
    t in d && Has(fields, t) && !(d[t].repeated && fields[t] == List([]))
  }

  function ClonedItem(s: Schema, kind: Kind, v: Val): Val
    requires ItemOk(s, kind, v)
    decreases v, 1
  {
    if v.Msg? then Msg(Merge(s, Empty(v.content.typ), v.content)) else v
  }

  function ClonedItems(s: Schema, f: Field, v: Val): (items: seq<Val>)
    requires f.repeated && ValueOk(s, f, v)
    ensures |items| == |v.items|
    decreases v, 2
  {
    seq(|v.items|, i requires 0 <= i < |v.items| => ClonedItem(s, f.kind, v.items[i]))
  }

  function MergedValue(s: Schema, f: Field, prior: Option<Val>, v: Val): Val
    requires ValueOk(s, f, v)
    decreases v, 3
  {
    if f.repeated then List(Items(prior) + ClonedItems(s, f, v))
    else if f.kind.Composite? then
      assert ItemOk(s, f.kind, v);
      Msg(Merge(s, Child(prior, f.kind.typ), v.content))
    else v
  }

  /** a.mergeFrom(b), for distinct a and b */
  function Merge(s: Schema, a: Content, b: Content): (c: Content)
    requires WellTyped(s, b)
    ensures c.typ == a.typ
    decreases b, 0
  {
    Content(a.typ, map t | t in a.fields.Keys + b.fields.Keys && (t in a.fields || Copied(s[b.typ], b.fields, t)) ::
      if Copied(s[b.typ], b.fields, t) then MergedValue(s, s[b.typ][t], Lookup(a.fields, t), b.fields[t]) else a.fields[t])
  }

  function Clone(s: Schema, a: Content): Content
    requires WellTyped(s, a)
  {
    Merge(s, Empty(a.typ), a)
  }

  /** What a merged message holds in each field. */
  lemma MergedField(s: Schema, a: Content, b: Content, t: Tag)
    requires WellTyped(s, b)
    ensures Lookup(Merge(s, a, b).fields, t) ==
      if Copied(s[b.typ], b.fields, t) then Some(MergedValue(s, s[b.typ][t], Lookup(a.fields, t), b.fields[t]))
      else Lookup(a.fields, t)
  {
  }

  // ----- mergeFrom keeps messages well typed -----

  lemma {:induction false} MergeIsWellTyped(s: Schema, a: Content, b: Content)
    requires WellTyped(s, a) && WellTyped(s, b) && a.typ == b.typ
    ensures WellTyped(s, Merge(s, a, b))
    decreases b, 0
  {
    var c := Merge(s, a, b);
    forall t | t in c.fields && t in s[c.typ] ensures ValueOk(s, s[c.typ][t], c.fields[t]) {
      if Copied(s[b.typ], b.fields, t) {
        MergedValueOk(s, s[b.typ][t], Lookup(a.fields, t), b.fields[t]);
      }
    }
  }

  lemma {:induction false} MergedValueOk(s: Schema, f: Field, prior: Option<Val>, v: Val)
    requires ValueOk(s, f, v) && (prior.Some? ==> ValueOk(s, f, prior.value))
    ensures ValueOk(s, f, MergedValue(s, f, prior, v))
    decreases v, 2
  {
    if f.repeated {
      forall i | 0 <= i < |v.items| ensures ItemOk(s, f.kind, ClonedItem(s, f.kind, v.items[i])) {
        ClonedItemOk(s, f.kind, v.items[i]);
      }
    } else if f.kind.Composite? {
      assert ItemOk(s, f.kind, v) && (prior.Some? ==> ItemOk(s, f.kind, prior.value));
      assert WellTyped(s, v.content);
      MergeIsWellTyped(s, Child(prior, f.kind.typ), v.content);
    }
  }

  lemma {:induction false} ClonedItemOk(s: Schema, kind: Kind, v: Val)
    requires ItemOk(s, kind, v)
    ensures ItemOk(s, kind, ClonedItem(s, kind, v))
    decreases v, 1
  {
    if v.Msg? {
      MergeIsWellTyped(s, Empty(v.content.typ), v.content);
    }
  }

  // ----- mergeFrom is a monoid action -----

  lemma EmptyIsRightIdentity(s: Schema, a: Content, typ: TypeName)
    requires typ in s
    ensures Merge(s, a, Empty(typ)) == a
  {
  }

  /** Merging b and then c is merging the merge of b and c, at every depth. */
  lemma {:induction false} MergeIsAssociative(s: Schema, a: Content, b: Content, c: Content)
    requires WellTyped(s, b) && WellTyped(s, c) && b.typ == c.typ
    ensures WellTyped(s, Merge(s, b, c))
    ensures Merge(s, Merge(s, a, b), c) == Merge(s, a, Merge(s, b, c))
    decreases c, 0
  {
    MergeIsWellTyped(s, b, c);
    var bc := Merge(s, b, c);
    var left, right := Merge(s, Merge(s, a, b), c), Merge(s, a, bc);
    forall t ensures Lookup(left.fields, t) == Lookup(right.fields, t) {
      FieldsAssociate(s, a, b, c, t);
    }
    SameFields(left.fields, right.fields);
  }

  lemma SameFields(f: map<Tag, Val>, g: map<Tag, Val>)
    requires forall t :: Lookup(f, t) == Lookup(g, t)
    ensures f == g
  {
    forall t ensures t in f <==> t in g {
      assert Lookup(f, t) == Lookup(g, t);
    }
    forall t | t in f ensures f[t] == g[t] {
      assert Lookup(f, t) == Lookup(g, t);
    }
  }

  lemma {:induction false} FieldsAssociate(s: Schema, a: Content, b: Content, c: Content, t: Tag)
    requires WellTyped(s, b) && WellTyped(s, c) && b.typ == c.typ && WellTyped(s, Merge(s, b, c))
    ensures Lookup(Merge(s, Merge(s, a, b), c).fields, t) == Lookup(Merge(s, a, Merge(s, b, c)).fields, t)
    decreases c, 0, 0
  {
    var d, bc := s[b.typ], Merge(s, b, c);
    MergedField(s, Merge(s, a, b), c, t);
    MergedField(s, a, b, t);
    MergedField(s, b, c, t);
    MergedField(s, a, bc, t);
    CopiedFromMerge(s, b, c, t);
    if Copied(d, c.fields, t) {
      if Copied(d, b.fields, t) {
        ValuesAssociate(s, d[t], Lookup(a.fields, t), b.fields[t], c.fields[t]);
      } else {
        ValueOntoNothing(s, d[t], Lookup(a.fields, t), Lookup(b.fields, t), c.fields[t]);
      }
    }
    hide Merge, MergedValue, WellTyped, ValueOk;
  }

  lemma CopiedFromMerge(s: Schema, b: Content, c: Content, t: Tag)
    requires WellTyped(s, b) && WellTyped(s, c) && b.typ == c.typ
    ensures Copied(s[b.typ], Merge(s, b, c).fields, t) <==> Copied(s[b.typ], b.fields, t) || Copied(s[b.typ], c.fields, t)
  {
    MergedField(s, b, c, t);
  }

  lemma {:induction false} ClonedTwice(s: Schema, kind: Kind, v: Val)
    requires ItemOk(s, kind, v)
    ensures ItemOk(s, kind, ClonedItem(s, kind, v))
    ensures ClonedItem(s, kind, ClonedItem(s, kind, v)) == ClonedItem(s, kind, v)
    decreases v, 1
  {
    ClonedItemOk(s, kind, v);
    if v.Msg? {
      var m := v.content;
      MergeIsAssociative(s, Empty(m.typ), Empty(m.typ), m);
      EmptyIsRightIdentity(s, Empty(m.typ), m.typ);
    }
  }

  lemma {:induction false} ItemsClonedTwice(s: Schema, f: Field, v: Val, w: Val)
    requires f.repeated && ValueOk(s, f, v) && ValueOk(s, f, w)
    ensures ValueOk(s, f, List(v.items + ClonedItems(s, f, w)))
    ensures ClonedItems(s, f, List(v.items + ClonedItems(s, f, w))) == ClonedItems(s, f, v) + ClonedItems(s, f, w)
    decreases w, 2
  {
    MergedValueOk(s, f, Some(v), w);
    forall i | 0 <= i < |w.items| ensures
      ItemOk(s, f.kind, ClonedItem(s, f.kind, w.items[i])) &&
      ClonedItem(s, f.kind, ClonedItem(s, f.kind, w.items[i])) == ClonedItem(s, f.kind, w.items[i])
    {
      ClonedTwice(s, f.kind, w.items[i]);
    }
  }

  lemma {:induction false} ValuesAssociate(s: Schema, f: Field, prior: Option<Val>, v: Val, w: Val)
    requires ValueOk(s, f, v) && ValueOk(s, f, w)
    ensures ValueOk(s, f, MergedValue(s, f, Some(v), w))
    ensures MergedValue(s, f, Some(MergedValue(s, f, prior, v)), w) == MergedValue(s, f, prior, MergedValue(s, f, Some(v), w))
    decreases w, 3
  {
    MergedValueOk(s, f, Some(v), w);
    if f.repeated {
      ItemsClonedTwice(s, f, v, w);
      var front, first, second := Items(prior), ClonedItems(s, f, v), ClonedItems(s, f, w);
      assert (front + first) + second == front + (first + second);
    } else if f.kind.Composite? {
      assert ItemOk(s, f.kind, v) && ItemOk(s, f.kind, w);
      MergeIsAssociative(s, Child(prior, f.kind.typ), v.content, w.content);
    }
  }

  /** b holds nothing to copy, so merging it in between changes nothing. */
  lemma {:induction false} ValueOntoNothing(s: Schema, f: Field, prior: Option<Val>, b: Option<Val>, w: Val)
    requires ValueOk(s, f, w) && (b.Some? ==> ValueOk(s, f, b.value) && f.repeated && b.value.items == [])
    ensures ValueOk(s, f, MergedValue(s, f, b, w))
    ensures MergedValue(s, f, prior, w) == MergedValue(s, f, prior, MergedValue(s, f, b, w))
    decreases w, 3
  {
    MergedValueOk(s, f, b, w);
    if f.repeated {
      var none := List([]);
      ItemsClonedTwice(s, f, none, w);
      assert ClonedItems(s, f, none) == [] && Items(b) == none.items;
      assert [] + ClonedItems(s, f, w) == ClonedItems(s, f, w);
    } else if f.kind.Composite? {
      var typ := f.kind.typ;
      assert ItemOk(s, f.kind, w);
      assert WellTyped(s, w.content);
      MergeIsAssociative(s, Child(prior, typ), Empty(typ), w.content);
      EmptyIsRightIdentity(s, Child(prior, typ), typ);
    }
  }
}
