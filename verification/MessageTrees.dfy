/**
 * Eager messages as objects that own their sub-messages: mergeFrom, copyFrom, clone and equals of
 * javascript/phonenumbernormalizer/js/message.js, updating a tree of messages in place.
 */
module MessageTrees {
  import opened ProtoMessages
  import opened MessageEquality
  import opened JsArrays

  /** What values_ holds under a tag: a plain value or list, a sub-message, or an array of them. */
  datatype Slot = Plain(v: Val) | One(child: Message) | Many(children: seq<Message>)

  function Kids(slot: Slot): seq<Message> {
    match slot case Plain(_) => [] case One(c) => [c] case Many(cs) => cs
  }

  /** The slot stands for the value. */
  ghost predicate Shows(slot: Slot, v: Val)
    reads Kids(slot)
  {
    match slot
    case Plain(w) => v == w
    case One(c) => assert Kids(slot)[0] == c; v == Msg(c.content)
    case Many(cs) => v.List? && |v.items| == |cs| && forall i :: 0 <= i < |cs| ==> v.items[i] == Msg(cs[i].content)
  }

  /** Sub-messages are kept as objects, and nothing else is. */
  predicate Fits(d: Descriptor, t: Tag, slot: Slot) {
    if t in d && d[t].kind.Composite? then if d[t].repeated then slot.Many? else slot.One? else slot.Plain?
  }

  lemma FieldKeepsTyping(s: Schema, c: Content, t: Tag, v: Val)
    requires WellTyped(s, c) && (t in s[c.typ] ==> ValueOk(s, s[c.typ][t], v))
    ensures WellTyped(s, Content(c.typ, c.fields[t := v]))
  {
  }

  lemma ItemKeepsTyping(s: Schema, f: Field, prior: Option<Val>, c: Content)
    requires WellTyped(s, c) && f.kind == Composite(c.typ) && f.repeated && (prior.Some? ==> ValueOk(s, f, prior.value))
    ensures ValueOk(s, f, List(Items(prior) + [Msg(c)]))
  {
    assert ItemOk(s, f.kind, Msg(c));
  }

  ghost predicate AllKids(values: map<Tag, Slot>, kids: set<Message>) {
    forall t, k :: t in values && k in Kids(values[t]) ==> k in kids
  }

  /** No two places hold the same message. */
  ghost predicate Apart(values: map<Tag, Slot>) {
    forall t, i, u, j :: t in values && u in values && 0 <= i < |Kids(values[t])| && 0 <= j < |Kids(values[u])| && (t != u || i != j) ==>
      Kids(values[t])[i] != Kids(values[u])[j]
  }

  lemma StillApart(values: map<Tag, Slot>, kids: set<Message>, t: Tag, slot: Slot, c: Message)
    requires AllKids(values, kids) && Apart(values) && c !in kids
    requires slot == One(c) || (t in values && slot == Many(Kids(values[t]) + [c])) || (t !in values && slot == Many([c]))
    ensures AllKids(values[t := slot], kids + {c}) && Apart(values[t := slot])
  {
  }

  // ----- mergeFrom, field by field -----

  /** What has become of a message when some of the fields have been merged. */
  function MergedPart(s: Schema, a: Content, b: Content, done: set<Tag>): (c: Content)
    requires WellTyped(s, b)
  {
    Content(a.typ, map t | t in a.fields.Keys + b.fields.Keys && (t in a.fields || (t in done && Copied(s[b.typ], b.fields, t))) ::
      if t in done && Copied(s[b.typ], b.fields, t) then MergedValue(s, s[b.typ][t], Lookup(a.fields, t), b.fields[t])
      else a.fields[t])
  }

  /** The content after one field has been merged. */
  function WithField(s: Schema, a: Content, b: Content, t: Tag): Content
    requires WellTyped(s, b)
  {
    if Copied(s[b.typ], b.fields, t) then
      Content(a.typ, a.fields[t := MergedValue(s, s[b.typ][t], Lookup(a.fields, t), b.fields[t])])
    else a
  }

  lemma PartGrows(s: Schema, a: Content, b: Content, done: set<Tag>, t: Tag)
    requires WellTyped(s, b) && t !in done
    ensures MergedPart(s, a, b, done + {t}) == WithField(s, MergedPart(s, a, b, done), b, t)
  {
    var part := MergedPart(s, a, b, done);
    assert Lookup(part.fields, t) == Lookup(a.fields, t);
    assert MergedPart(s, a, b, done + {t}).fields == WithField(s, part, b, t).fields;
  }

  lemma PartsMakeMerge(s: Schema, a: Content, b: Content)
    requires WellTyped(s, b)
    ensures MergedPart(s, a, b, {}) == a
    ensures MergedPart(s, a, b, s[b.typ].Keys) == Merge(s, a, b)
  {
    assert MergedPart(s, a, b, {}).fields == a.fields;
    assert MergedPart(s, a, b, s[b.typ].Keys).fields == Merge(s, a, b).fields;
  }

  /** The content after some items were added to a repeated field. */
  function Grown(a: Content, t: Tag, added: seq<Val>): Content {
    if added == [] then a else Content(a.typ, a.fields[t := List(Items(Lookup(a.fields, t)) + added)])
  }

  lemma GrownByOne(a: Content, t: Tag, items: seq<Val>, j: nat)
    requires j < |items|
    ensures var g := Grown(a, t, items[..j]);
      Grown(a, t, items[..j + 1]) == Content(a.typ, g.fields[t := List(Items(Lookup(g.fields, t)) + [items[j]])])
  {
    var front := Items(Lookup(a.fields, t));
    assert items[..j + 1] == items[..j] + [items[j]];
    assert front + items[..j + 1] == (front + items[..j]) + [items[j]];
    var g := Grown(a, t, items[..j]);
    assert Items(Lookup(g.fields, t)) == front + items[..j];
    assert Grown(a, t, items[..j + 1]).fields == g.fields[t := List(Items(Lookup(g.fields, t)) + [items[j]])];
  }

  lemma GrownIsMerged(s: Schema, a: Content, b: Content, t: Tag)
    requires WellTyped(s, b) && t in s[b.typ] && s[b.typ][t].repeated && t in b.fields
    ensures ValueOk(s, s[b.typ][t], b.fields[t])
    ensures Grown(a, t, ClonedItems(s, s[b.typ][t], b.fields[t])) == WithField(s, a, b, t)
  {
  }

  lemma CloneAt(s: Schema, f: Field, v: Val, j: nat, c: Content)
    requires f.repeated && f.kind.Composite? && ValueOk(s, f, v) && j < |v.items| && v.items[j] == Msg(c)
    ensures WellTyped(s, c) && c.typ == f.kind.typ && ClonedItems(s, f, v)[j] == Msg(Clone(s, c))
  {
    assert ItemOk(s, f.kind, v.items[j]);
  }

  lemma PlainItemsStay(s: Schema, f: Field, v: Val)
    requires f.repeated && !f.kind.Composite? && ValueOk(s, f, v)
    ensures ClonedItems(s, f, v) == v.items
  {
    assert forall i :: 0 <= i < |v.items| ==> ItemOk(s, f.kind, v.items[i]);
  }

  lemma Elsewhere(values: map<Tag, Slot>, kids: set<Message>, t: Tag, child: Message, u: Tag)
    requires AllKids(values, kids) && Apart(values) && t in values && values[t] == One(child) && u in values && u != t
    ensures child !in Kids(values[u]) && forall k :: k in Kids(values[u]) ==> k in kids
  {
    assert Kids(values[t])[0] == child;
  }

  class Message {
    const schema: Schema
    const typ: TypeName
    var values: map<Tag, Slot>
    ghost var content: Content
    ghost var kids: set<Message>
    ghost var repr: set<Message>

    /** The sub-messages are valid, below this one, and share nothing. */
    ghost predicate Owned()
      reads this, repr
      decreases repr, 0
    {
      && this in repr
      && (forall k :: k in kids ==> k in repr && k.repr <= repr && this !in k.repr && k.schema == schema && k.Valid())
      && (forall k, l :: k in kids && l in kids && k != l ==> k.repr !! l.repr)
    }

    /** content is what values_ stands for. */
    ghost predicate Shown()
      requires Owned() && AllKids(values, kids)
      reads this, repr
      decreases repr, 1
    {
      && content.typ == typ && content.fields.Keys == values.Keys && WellTyped(schema, content)
      && (forall t :: t in values ==> Fits(schema[typ], t, values[t]))
      && (forall t :: t in values ==> Shows(values[t], content.fields[t]))
    }

    ghost predicate Valid()
      ensures Valid() ==> this in repr && content.typ == typ && typ in schema && WellTyped(schema, content)
      reads this, repr
      decreases repr, 2
    {
      Owned() && AllKids(values, kids) && Apart(values) && Shown()
    }

    constructor (schema: Schema, typ: TypeName)
      requires typ in schema
      ensures Valid() && fresh(repr) && repr == {this}
      ensures this.schema == schema && this.typ == typ && content == Empty(typ)
    {
      this.schema := schema;
      this.typ := typ;
      values := map[];
      content := Empty(typ);
      kids := {};
      repr := {this};
    }

    /** Stores a value that is no sub-message. */
    method SetPlain(t: Tag, v: Val)
      requires Valid() && Fits(schema[typ], t, Plain(v))
      requires t in schema[typ] ==> ValueOk(schema, schema[typ][t], v)
      modifies this
      ensures Valid() && repr == old(repr)
      ensures content == Content(typ, old(content.fields)[t := v])
    {
      FieldKeepsTyping(schema, content, t, v);
      values := values[t := Plain(v)];
      content := Content(typ, content.fields[t := v]);
    }

    /** Stores a slot that holds one more sub-message, which nothing else holds. */
    method StoreSlot(t: Tag, slot: Slot, ghost v: Val, ghost c: Message)
      requires Valid() && c.Valid() && c.repr !! repr && c.schema == schema
      requires slot == One(c) || (t in values && slot == Many(Kids(values[t]) + [c])) || (t !in values && slot == Many([c]))
      requires Fits(schema[typ], t, slot) && Shows(slot, v) && WellTyped(schema, Content(typ, content.fields[t := v]))
      modifies this
      ensures Valid() && repr == old(repr) + c.repr
      ensures content == Content(typ, old(content.fields)[t := v])
    {
      StillApart(values, kids, t, slot, c);
      assert forall k :: k in Kids(slot) ==> k in kids || k == c;
      hide WellTyped, AllKids, Apart;
      values := values[t := slot];
      content := Content(typ, content.fields[t := v]);
      repr := repr + c.repr;
      kids := kids + {c};
    }

    /** Stores a sub-message that nothing else holds. */
    method PutChild(t: Tag, c: Message)
      requires Valid() && c.Valid() && c.repr !! repr && c.schema == schema
      requires t in schema[typ] && !schema[typ][t].repeated && schema[typ][t].kind == Composite(c.typ)
      modifies this
      ensures Valid() && repr == old(repr) + c.repr
      ensures content == Content(typ, old(content.fields)[t := Msg(c.content)])
    {
      assert ItemOk(schema, schema[typ][t].kind, Msg(c.content));
      FieldKeepsTyping(schema, content, t, Msg(c.content));
      assert Kids(One(c))[0] == c;
      StoreSlot(t, One(c), Msg(c.content), c);
    }

    /** Adds a sub-message that nothing else holds. */
    method AddChild(t: Tag, c: Message)
      requires Valid() && c.Valid() && c.repr !! repr && c.schema == schema
      requires t in schema[typ] && schema[typ][t].repeated && schema[typ][t].kind == Composite(c.typ)
      modifies this
      ensures Valid() && repr == old(repr) + c.repr
      ensures content == Content(typ, old(content.fields)[t := List(Items(Lookup(old(content.fields), t)) + [Msg(c.content)])])
    {
      Parts();
      var before := if t in values then values[t].children else [];
      ghost var items := Items(Lookup(content.fields, t));
      ItemKeepsTyping(schema, schema[typ][t], Lookup(content.fields, t), c.content);
      FieldKeepsTyping(schema, content, t, List(items + [Msg(c.content)]));
      assert |items| == |before| && forall i :: 0 <= i < |before| ==> items[i] == Msg(before[i].content);
      hide WellTyped, ValueOk, ItemOk, AllKids, Apart;
      StoreSlot(t, Many(before + [c]), List(items + [Msg(c.content)]), c);
    }

    /** m is a message of the same type that shares nothing with this one. */
    ghost predicate CanMerge(m: Message)
      reads this, repr, m, m.repr
    {
      Valid() && m.Valid() && repr !! m.repr && m.typ == typ && m.schema == schema
    }

    method MergeFrom(m: Message)
      requires CanMerge(m)
      modifies repr
      ensures CanMerge(m) && fresh(repr - old(repr)) && old(repr) <= repr
      ensures m.content == old(m.content) && m.repr == old(m.repr)
      ensures content == Merge(schema, old(content), m.content)
      decreases m.repr, 2
    {
      var fields := schema[typ].Keys;
      ghost var done: set<Tag> := {};
      PartsMakeMerge(schema, content, m.content);
      while fields != {}
        invariant CanMerge(m) && fresh(repr - old(repr)) && old(repr) <= repr
        invariant m.content == old(m.content) && m.repr == old(m.repr)
        invariant fields !! done && fields + done == schema[typ].Keys
        invariant content == MergedPart(schema, old(content), m.content, done)
      {
        var t := NextKey(fields);
        fields := fields - {t};
        MergeField(t, m);
        PartGrows(schema, old(content), m.content, done, t);
        done := done + {t};
      }
    }

    /** The body of the loop over the fields. */
    method MergeField(t: Tag, m: Message)
      requires CanMerge(m) && t in schema[typ]
      modifies repr
      ensures CanMerge(m) && fresh(repr - old(repr)) && old(repr) <= repr
      ensures m.content == old(m.content) && m.repr == old(m.repr)
      ensures content == WithField(schema, old(content), m.content, t)
      decreases m.repr, 1
    {
      m.SlotAt(t);
      if t !in m.values {
        return;
      }
      if schema[typ][t].repeated {
        if schema[typ][t].kind.Composite? {
          AppendClones(t, m);
        } else {
          AppendPlain(t, m);
        }
      } else if schema[typ][t].kind.Composite? {
        MergeChild(t, m);
      } else {
        SetPlain(t, m.values[t].v);
      }
    }

    /** What the slot of a valid message says about its content. */
    lemma SlotAt(t: Tag)
      requires Valid()
      ensures t in values <==> t in content.fields
      ensures t in values ==> Fits(schema[typ], t, values[t]) && (forall k :: k in Kids(values[t]) ==> k in kids)
      ensures t in values && values[t].Plain? ==> content.fields[t] == values[t].v
      ensures t in values && values[t].One? ==> values[t].child in kids && content.fields[t] == Msg(values[t].child.content)
      ensures t in values && values[t].Many? ==>
        var v, cs := content.fields[t], values[t].children;
        v.List? && |v.items| == |cs| && forall i :: 0 <= i < |cs| ==> cs[i] in kids && v.items[i] == Msg(cs[i].content)
      ensures t in values && t in schema[typ] ==> ValueOk(schema, schema[typ][t], content.fields[t]) && Present(content.fields[t])
    {
      if t in values && t in schema[typ] { TypedIsPresent(schema, schema[typ][t], content.fields[t]); }
      if t in values && values[t].One? { assert Kids(values[t])[0] == values[t].child; }
    }

    lemma Below(k: Message)
      requires Valid() && k in kids
      ensures k.Valid() && k in repr && k.repr < repr && this !in k.repr && k.schema == schema
    {
    }

    lemma Parts()
      requires Valid()
      ensures content.fields.Keys == values.Keys && AllKids(values, kids) && Apart(values)
      ensures forall k :: k in kids ==> k in repr && k.Valid() && k in k.repr && k.repr <= repr && this !in k.repr && k.schema == schema
      ensures forall k, l :: k in kids && l in kids && k != l ==> k.repr !! l.repr
      ensures forall u :: u in values ==> Fits(schema[typ], u, values[u])
      ensures forall u :: u in values ==> Shows(values[u], content.fields[u])
    {
    }

    /** Adds the items of a list of plain values one by one. */
    method AppendPlain(t: Tag, m: Message)
      requires CanMerge(m) && t in schema[typ] && schema[typ][t].repeated && !schema[typ][t].kind.Composite? && t in m.values
      modifies this
      ensures CanMerge(m) && repr == old(repr)
      ensures content == WithField(schema, old(content), m.content, t)
    {
      m.SlotAt(t);
      var items := m.values[t].v.items;
      PlainItemsStay(schema, schema[typ][t], m.values[t].v);
      GrownIsMerged(schema, content, m.content, t);
      var j := 0;
      while j < |items|
        invariant 0 <= j <= |items|
        invariant CanMerge(m) && repr == old(repr)
        invariant content == Grown(old(content), t, items[..j])
      {
        SlotAt(t);
        GrownByOne(old(content), t, items, j);
        var held := if t in values then values[t].v.items else [];
        SetPlain(t, List(held + [items[j]]));
        j := j + 1;
      }
      assert items[..j] == items;
    }

    /** Adds a clone of one sub-message of m. */
    method AddClone(t: Tag, child: Message, m: Message)
      requires CanMerge(m) && child.Valid() && child.repr < m.repr && child.schema == schema
      requires t in schema[typ] && schema[typ][t].repeated && schema[typ][t].kind == Composite(child.typ)
      modifies this
      ensures CanMerge(m) && fresh(repr - old(repr)) && old(repr) <= repr
      ensures content == Content(typ, old(content.fields)[t :=
        List(Items(Lookup(old(content.fields), t)) + [Msg(Clone(schema, old(child.content)))])])
      decreases child.repr, 5
    {
      var c := child.Cloned();
      hide ValueOk, WellTyped, Merge, Shown, Owned, AllKids, Apart;
      AddChild(t, c);
    }

    /** Adds a clone of each sub-message in a list. */
    method AppendClones(t: Tag, m: Message)
      requires CanMerge(m) && t in schema[typ] && schema[typ][t].repeated && schema[typ][t].kind.Composite? && t in m.values
      modifies this
      ensures CanMerge(m) && fresh(repr - old(repr)) && old(repr) <= repr
      ensures m.content == old(m.content) && m.repr == old(m.repr)
      ensures content == WithField(schema, old(content), m.content, t)
      decreases m.repr, 0
    {
      m.SlotAt(t);
      var children := m.values[t].children;
      ghost var clones := ClonedItems(schema, schema[typ][t], m.content.fields[t]);
      GrownIsMerged(schema, content, m.content, t);
      var j := 0;
      while j < |children|
        invariant 0 <= j <= |children|
        invariant CanMerge(m) && fresh(repr - old(repr)) && old(repr) <= repr
        invariant content == Grown(old(content), t, clones[..j])
      {
        m.Below(children[j]);
        CloneAt(schema, schema[typ][t], m.content.fields[t], j, children[j].content);
        GrownByOne(old(content), t, clones, j);
        AddClone(t, children[j], m);
        j := j + 1;
      }
      assert clones[..j] == clones;
    }

    /** Takes up in content and repr what has become of one sub-message. */
    ghost method Refresh(t: Tag, child: Message)
      requires this in repr && content.typ == typ && WellTyped(schema, content) && content.fields.Keys == values.Keys
      requires AllKids(values, kids) && Apart(values)
      requires forall k :: k in kids ==> k in repr && k.Valid() && this !in k.repr && k.schema == schema && (k == child || k.repr <= repr)
      requires forall k, l :: k in kids && l in kids && k != l ==> k.repr !! l.repr
      requires forall u :: u in values ==> Fits(schema[typ], u, values[u])
      requires forall u :: u in values && u != t ==> Shows(values[u], content.fields[u])
      requires t in values && values[t] == One(child) && t in schema[typ] && !schema[typ][t].repeated
      requires schema[typ][t].kind == Composite(child.typ)
      modifies this`content, this`repr
      ensures Valid() && repr == old(repr) + child.repr
      ensures content == Content(typ, old(content.fields)[t := Msg(child.content)])
    {
      assert Kids(values[t])[0] == child && child in kids && child.Valid();
      assert ItemOk(schema, schema[typ][t].kind, Msg(child.content));
      FieldKeepsTyping(schema, content, t, Msg(child.content));
      content := Content(typ, content.fields[t := Msg(child.content)]);
      repr := repr + child.repr;
    }

    method MergeIntoChild(t: Tag, child: Message, m: Message)
      requires Valid() && m.Valid() && repr !! m.repr && m.schema == schema && m.typ == child.typ
      requires t in schema[typ] && !schema[typ][t].repeated && schema[typ][t].kind == Composite(child.typ)
      requires t in values && values[t] == One(child) && child in kids
      modifies repr
      ensures Valid() && fresh(repr - old(repr)) && old(repr) <= repr
      ensures m.Valid() && m.content == old(m.content) && m.repr == old(m.repr)
      ensures repr !! m.repr
      ensures content == Content(typ, old(content.fields)[t := Msg(Merge(schema, old(child.content), m.content))])
      decreases m.repr, 5
    {
      Parts();
      hide Valid, Owned, Shown, Shows, AllKids, Apart, Fits, WellTyped, Merge;
      forall u | u in values && u != t ensures child !in Kids(values[u]) && forall k :: k in Kids(values[u]) ==> k in kids {
        Elsewhere(values, kids, t, child, u);
      }
      child.MergeFrom(m);
      assert forall k :: k in kids && k != child ==> k.Valid() && k.repr == old(k.repr) && k.repr !! child.repr;
      Refresh(t, child);
    }

    /** Merges into the sub-message there is, or stores a clone. */
    method MergeChild(t: Tag, m: Message)
      requires CanMerge(m) && t in schema[typ] && !schema[typ][t].repeated && schema[typ][t].kind.Composite? && t in m.values
      modifies repr
      ensures CanMerge(m) && fresh(repr - old(repr)) && old(repr) <= repr
      ensures m.content == old(m.content) && m.repr == old(m.repr)
      ensures content == WithField(schema, old(content), m.content, t)
      decreases m.repr, 0
    {
      SlotAt(t);
      m.SlotAt(t);
      var value := m.values[t].child;
      assert ItemOk(schema, schema[typ][t].kind, Msg(value.content));
      m.Below(value);
      if t in values {
        var child := values[t].child;
        Below(child);
        assert ItemOk(schema, schema[typ][t].kind, Msg(child.content));
        MergeIntoChild(t, child, value);
      } else {
        var c := value.Cloned();
        PutChild(t, c);
      }
    }

    method CopyFrom(m: Message)
      requires Valid() && m.Valid() && m.typ == typ && m.schema == schema && (m == this || this !in m.repr)
      modifies this
      ensures Valid() && (m == this || fresh(repr - {this}))
      ensures m.Valid() && m.content == old(m.content) && m.repr == old(m.repr)
      ensures content == if m == this then old(content) else Clone(schema, m.content)
      decreases m.repr, 3
    {
      if this != m {
        values := map[];
        content := Empty(typ);
        kids := {};
        repr := {this};
        MergeFrom(m);
      }
    }

    /** clone */
    method Cloned() returns (c: Message)
      requires Valid()
      ensures c.Valid() && fresh(c.repr) && c.typ == typ && c.schema == schema
      ensures c.content == Clone(schema, content)
      decreases repr, 4
    {
      c := new Message(schema, typ);
      c.CopyFrom(this);
    }

    /** The comparison of one field that both messages have. */
    method FieldEquals(t: Tag, m: Message) returns (same: bool)
      requires Valid() && m.Valid() && m.schema == schema && m.typ == typ && t in schema[typ] && t in values && t in m.values
      ensures t in content.fields && t in m.content.fields
      ensures ValueOk(schema, schema[typ][t], content.fields[t]) && ValueOk(schema, schema[typ][t], m.content.fields[t])
      ensures same == SameValue(schema, schema[typ][t], content.fields[t], m.content.fields[t])
      decreases repr, 0
    {
      var f := schema[typ][t];
      SlotAt(t);
      m.SlotAt(t);
      ghost var v, w := content.fields[t], m.content.fields[t];
      if f.repeated {
        assert forall i :: 0 <= i < |v.items| ==> ItemOk(schema, f.kind, v.items[i]);
        assert forall i :: 0 <= i < |w.items| ==> ItemOk(schema, f.kind, w.items[i]);
        if f.kind.Composite? {
          var these, those := values[t].children, m.values[t].children;
          if |these| != |those| {
            return false;
          }
          var j := 0;
          while j < |these|
            invariant 0 <= j <= |these|
            invariant forall i :: 0 <= i < j ==> SameItem(schema, f.kind, v.items[i], w.items[i])
          {
            Below(these[j]);
            m.Below(those[j]);
            var equal := these[j].EqualTo(those[j]);
            if !equal {
              assert !SameItem(schema, f.kind, v.items[j], w.items[j]);
              return false;
            }
            j := j + 1;
          }
          return true;
        } else {
          return values[t].v == m.values[t].v;
        }
      } else {
        assert ItemOk(schema, f.kind, v) && ItemOk(schema, f.kind, w);
        if f.kind.Composite? {
          Below(values[t].child);
          m.Below(m.values[t].child);
          same := values[t].child.EqualTo(m.values[t].child);
        } else {
          return values[t].v == m.values[t].v;
        }
      }
    }

    /** equals */
    method EqualTo(m: Message) returns (same: bool)
      requires Valid() && m.Valid() && m.schema == schema
      ensures same == Equals(schema, content, m.content)
      decreases repr, 1
    {
      if typ != m.typ {
        return false;
      }
      var fields := schema[typ].Keys;
      ghost var done: set<Tag> := {};
      while fields != {}
        invariant fields !! done && fields + done == schema[typ].Keys
        invariant forall t :: t in done ==> FieldSame(schema, content, m.content, t)
      {
        var t := NextKey(fields);
        fields := fields - {t};
        SlotAt(t);
        m.SlotAt(t);
        if (t in values) != (t in m.values) {
          assert !FieldSame(schema, content, m.content, t);
          return false;
        }
        if t in values {
          var equal := FieldEquals(t, m);
          if !equal {
            assert !FieldSame(schema, content, m.content, t);
            return false;
          }
        }
        done := done + {t};
      }
      assert forall t :: t in schema[typ] ==> FieldSame(schema, content, m.content, t);
      return true;
    }
  }

  /** What equals asks of one field. */
  predicate FieldSame(s: Schema, a: Content, b: Content, t: Tag)
    requires WellTyped(s, a) && WellTyped(s, b) && a.typ == b.typ && t in s[a.typ]
  {
    Has(a.fields, t) == Has(b.fields, t) && (Has(a.fields, t) ==> SameValue(s, s[a.typ][t], a.fields[t], b.fields[t]))
  }

  /** A clone shares no message with the original: merging into it leaves the original as it was. */
  method MergeIntoClone(m: Message, other: Message) returns (c: Message)
    requires m.Valid() && other.Valid() && other.typ == m.typ && other.schema == m.schema
    ensures c.Valid() && fresh(c.repr)
    ensures c.content == Merge(m.schema, Clone(m.schema, m.content), other.content)
    ensures m.Valid() && m.content == old(m.content) && other.Valid() && other.content == old(other.content)
  {
    c := m.Cloned();
    c.MergeFrom(other);
  }
}
