/**
 * mergeFrom of javascript/phonenumbernormalizer/js/message.js when an eager message is merged into
 * itself: source and target share every list and every sub-message.
 */
module SelfMerges {
  import opened ProtoMessages

  /** The order in which getFields lists the fields of a type. */
  type Order = TypeName -> seq<Tag>

  ghost predicate Lists(s: Schema, order: Order) {
    forall typ :: typ in s ==> forall t :: t in order(typ) <==> t in s[typ]
  }

  predicate ItemsOk(s: Schema, kind: Kind, items: seq<Val>) {
    forall i :: 0 <= i < |items| ==> ItemOk(s, kind, items[i])
  }

  /**
   * The loop over values, from j on, whose body pushes onto the very array it walks over. None when
   * it is not at its end after so many rounds.
   */
  function Grown(s: Schema, kind: Kind, items: seq<Val>, j: nat, rounds: nat): Option<seq<Val>>
    requires ItemsOk(s, kind, items)
    decreases rounds
  {
    if j >= |items| then Some(items)
    else if rounds == 0 then None
    else
      CloneStaysOk(s, kind, items[j]);
      Grown(s, kind, items + [ClonedItem(s, kind, items[j])], j + 1, rounds - 1)
  }

  lemma CloneStaysOk(s: Schema, kind: Kind, v: Val)
    requires ItemOk(s, kind, v)
    ensures ItemOk(s, kind, ClonedItem(s, kind, v))
  {
    ClonedItemOk(s, kind, v);
  }

  /** The body of the loop over the fields: the value of the source is the value of the target. */
  function SelfField(s: Schema, order: Order, f: Field, v: Val, rounds: nat): Option<Val>
    requires ValueOk(s, f, v)
    decreases v, 1
  {
    if f.repeated then
      var items := Grown(s, f.kind, v.items, 0, rounds);
      if items.Some? then Some(List(items.value)) else None
    else
      assert ItemOk(s, f.kind, v);
      if f.kind.Composite? then
        var child := SelfMerge(s, order, v.content, rounds);
        if child.Some? then Some(Msg(child.value)) else None
      else Some(v)
  }

  function SelfFields(s: Schema, order: Order, c: Content, now: map<Tag, Val>, tags: seq<Tag>, rounds: nat): Option<Content>
    requires WellTyped(s, c)
    decreases c, 0, |tags|
  {
    if tags == [] then Some(Content(c.typ, now))
    else if tags[0] !in s[c.typ] || !Has(c.fields, tags[0]) then SelfFields(s, order, c, now, tags[1..], rounds)
    else
      var v := SelfField(s, order, s[c.typ][tags[0]], c.fields[tags[0]], rounds);
      if v.None? then None else SelfFields(s, order, c, now[tags[0] := v.value], tags[1..], rounds)
  }

  /** m.mergeFrom(m), cut off when one of its loops takes more rounds than given. */
  function SelfMerge(s: Schema, order: Order, c: Content, rounds: nat): Option<Content>
    requires WellTyped(s, c)
    decreases c, 1
  {
    SelfFields(s, order, c, c.fields, order(c.typ), rounds)
  }

  // ----- exactly when it ends -----

  /** No list with items is held by the message or by a sub-message that is not in a list. */
  predicate NothingToGrow(s: Schema, c: Content)
    requires WellTyped(s, c)
    decreases c, 0
  {
    forall t :: t in c.fields && t in s[c.typ] ==> StaysAsItIs(s, s[c.typ][t], c.fields[t])
  }

  predicate StaysAsItIs(s: Schema, f: Field, v: Val)
    requires ValueOk(s, f, v)
    decreases v, 1
  {
    if f.repeated then v.items == []
    else
      assert ItemOk(s, f.kind, v);
      f.kind.Composite? ==> NothingToGrow(s, v.content)
  }

  /** However many rounds it has taken, the loop has one more to go. */
  lemma {:induction false} NeverEnds(s: Schema, kind: Kind, items: seq<Val>, j: nat, rounds: nat)
    requires ItemsOk(s, kind, items) && j < |items|
    ensures Grown(s, kind, items, j, rounds).None?
    decreases rounds
  {
    if rounds > 0 {
      CloneStaysOk(s, kind, items[j]);
      NeverEnds(s, kind, items + [ClonedItem(s, kind, items[j])], j + 1, rounds - 1);
    }
  }

  lemma {:induction false} FieldEnds(s: Schema, order: Order, f: Field, v: Val, rounds: nat)
    requires Lists(s, order) && ValueOk(s, f, v)
    ensures SelfField(s, order, f, v, rounds) == if StaysAsItIs(s, f, v) then Some(v) else None
    decreases v, 1
  {
    if f.repeated {
      if v.items != [] { NeverEnds(s, f.kind, v.items, 0, rounds); }
    } else {
      assert ItemOk(s, f.kind, v);
      if f.kind.Composite? { SelfMergeEnds(s, order, v.content, rounds); }
    }
  }

  lemma {:induction false} FieldsEnd(s: Schema, order: Order, c: Content, tags: seq<Tag>, rounds: nat)
    requires Lists(s, order) && WellTyped(s, c)
    ensures
      SelfFields(s, order, c, c.fields, tags, rounds) ==
        if forall t :: t in tags && t in c.fields && t in s[c.typ] ==> StaysAsItIs(s, s[c.typ][t], c.fields[t]) then Some(c) else None
    decreases c, 0, |tags|
  {
    if tags != [] {
      var t := tags[0];
      if t in s[c.typ] && t in c.fields {
        assert ValueOk(s, s[c.typ][t], c.fields[t]);
        FieldEnds(s, order, s[c.typ][t], c.fields[t], rounds);
        assert c.fields[t := c.fields[t]] == c.fields;
      }
      FieldsEnd(s, order, c, tags[1..], rounds);
      assert forall u :: u in tags <==> u == t || u in tags[1..];
    }
  }

  lemma {:induction false} SelfMergeEnds(s: Schema, order: Order, c: Content, rounds: nat)
    requires Lists(s, order) && WellTyped(s, c)
    ensures SelfMerge(s, order, c, rounds) == if NothingToGrow(s, c) then Some(c) else None
    decreases c, 1
  {
    FieldsEnd(s, order, c, order(c.typ), rounds);
    assert NothingToGrow(s, c) <==>
      forall t :: t in order(c.typ) && t in c.fields && t in s[c.typ] ==> StaysAsItIs(s, s[c.typ][t], c.fields[t]);
  }

  /**
   * Merging an eager message into itself comes to an end, in whatever order its fields are taken,
   * exactly when no list that it reaches without going through a list has an item; then nothing changes.
   */
  lemma SelfMergeEndsExactlyWhen(s: Schema, order: Order, c: Content)
    requires Lists(s, order) && WellTyped(s, c)
    ensures (exists rounds :: SelfMerge(s, order, c, rounds).Some?) <==> NothingToGrow(s, c)
    ensures forall rounds :: SelfMerge(s, order, c, rounds).Some? ==> SelfMerge(s, order, c, rounds) == Some(c)
  {
    forall rounds ensures SelfMerge(s, order, c, rounds) == if NothingToGrow(s, c) then Some(c) else None {
      SelfMergeEnds(s, order, c, rounds);
    }
    assert NothingToGrow(s, c) ==> SelfMerge(s, order, c, 0).Some?;
  }

  // ----- an equal copy instead -----

  lemma {:induction false} FieldOfCopy(s: Schema, c: Content, t: Tag)
    requires WellTyped(s, c)
    ensures t in c.fields && t in s[c.typ] ==> ValueOk(s, s[c.typ][t], c.fields[t])
    ensures Lookup(Merge(s, c, c).fields, t) == Lookup(c.fields, t) <==>
      (t in c.fields && t in s[c.typ] ==> StaysAsItIs(s, s[c.typ][t], c.fields[t]))
    decreases c, 0
  {
    MergedField(s, c, c, t);
    if t in c.fields && t in s[c.typ] {
      var f, v := s[c.typ][t], c.fields[t];
      if f.repeated {
        assert v == List([]) <==> v.items == [];
        if v.items != [] { assert |MergedValue(s, f, Some(v), v).items| == 2 * |v.items|; }
      } else {
        assert ItemOk(s, f.kind, v);
        if f.kind.Composite? { CopyChangesNothingExactlyWhen(s, v.content); }
      }
    }
  }

  /** Merging an equal copy always ends; it changes nothing exactly when merging the message itself ends. */
  lemma {:induction false} CopyChangesNothingExactlyWhen(s: Schema, c: Content)
    requires WellTyped(s, c)
    ensures Merge(s, c, c) == c <==> NothingToGrow(s, c)
    decreases c, 1
  {
    forall t ensures Lookup(Merge(s, c, c).fields, t) == Lookup(c.fields, t) <==>
        (t in c.fields && t in s[c.typ] ==> ValueOk(s, s[c.typ][t], c.fields[t]) && StaysAsItIs(s, s[c.typ][t], c.fields[t]))
    {
      FieldOfCopy(s, c, t);
    }
    if NothingToGrow(s, c) { SameFields(Merge(s, c, c).fields, c.fields); }
  }
}
