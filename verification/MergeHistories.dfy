/**
 * What a message holds after any number of merges, told field by field: the last value of a scalar,
 * all the items of a list in order, and the merge of all the sub-messages.
 */
module MergeHistories {
  import opened ProtoMessages

  ghost predicate AllTyped(s: Schema, typ: TypeName, sources: seq<Content>) {
    forall i :: 0 <= i < |sources| ==> WellTyped(s, sources[i]) && sources[i].typ == typ
  }

  /** a.mergeFrom(b) for one source after the other. */
  function MergeAll(s: Schema, a: Content, sources: seq<Content>): (c: Content)
    requires AllTyped(s, a.typ, sources)
    ensures c.typ == a.typ
  {
    if sources == [] then a
    else
      assert AllTyped(s, a.typ, sources[..|sources| - 1]);
      Merge(s, MergeAll(s, a, sources[..|sources| - 1]), sources[|sources| - 1])
  }

  /** The value of the last source that has the field. */
  ghost function Latest(a: Content, sources: seq<Content>, t: Tag): Option<Val> {
    if sources == [] then Lookup(a.fields, t)
    else if Has(sources[|sources| - 1].fields, t) then Some(sources[|sources| - 1].fields[t])
    else Latest(a, sources[..|sources| - 1], t)
  }

  /** An item that holds no message is itself, a message is its clone. */
  ghost predicate Copies(s: Schema, v: Val, w: Val) {
    if v.Msg? then WellTyped(s, v.content) && w == Msg(Clone(s, v.content)) else w == v
  }

  /** The items of the target and then those of every source, in order. */
  ghost function Gathered(a: Content, sources: seq<Content>, t: Tag): seq<Val> {
    if sources == [] then Items(Lookup(a.fields, t))
    else Gathered(a, sources[..|sources| - 1], t) + Items(Lookup(sources[|sources| - 1].fields, t))
  }

  /** The sub-messages of the sources that have one. */
  ghost function Kids(sources: seq<Content>, t: Tag): seq<Content> {
    if sources == [] then []
    else
      var last := Lookup(sources[|sources| - 1].fields, t);
      Kids(sources[..|sources| - 1], t) + if last.Some? && last.value.Msg? then [last.value.content] else []
  }

  lemma LastMerge(s: Schema, a: Content, sources: seq<Content>)
    requires AllTyped(s, a.typ, sources) && sources != []
    ensures
      var front, last := sources[..|sources| - 1], sources[|sources| - 1];
      && AllTyped(s, a.typ, front) && WellTyped(s, last) && last.typ == a.typ
      && MergeAll(s, a, sources) == Merge(s, MergeAll(s, a, front), last)
  {
    hide WellTyped, Merge;
  }

  lemma {:induction false} ScalarsAreLatest(s: Schema, a: Content, sources: seq<Content>, t: Tag)
    requires AllTyped(s, a.typ, sources) && a.typ in s && t in s[a.typ] && !s[a.typ][t].repeated && !s[a.typ][t].kind.Composite?
    ensures Lookup(MergeAll(s, a, sources).fields, t) == Latest(a, sources, t)
  {
    if sources != [] {
      var front, last := sources[..|sources| - 1], sources[|sources| - 1];
      ScalarsAreLatest(s, a, front, t);
      MergedField(s, MergeAll(s, a, front), last, t);
    }
  }

  /** The first items are the target's own, the others copies of the sources' items, one for one. */
  lemma {:induction false} ListsAreGathered(s: Schema, a: Content, sources: seq<Content>, t: Tag)
    requires AllTyped(s, a.typ, sources) && a.typ in s && t in s[a.typ] && s[a.typ][t].repeated
    ensures
      var items, all := Items(Lookup(MergeAll(s, a, sources).fields, t)), Gathered(a, sources, t);
      var own := |Items(Lookup(a.fields, t))|;
      && |items| == |all| && own <= |all| && items[..own] == all[..own]
      && forall i :: own <= i < |all| ==> Copies(s, all[i], items[i])
  {
    hide *;
    if sources == [] {
      NothingMerged(s, a);
      NothingGathered(a, t);
    } else {
      var front, last := sources[..|sources| - 1], sources[|sources| - 1];
      LastMerge(s, a, sources);
      ListsAreGathered(s, a, front, t);
      var target, own := MergeAll(s, a, front), |Items(Lookup(a.fields, t))|;
      LastItems(s, target, last, t);
      GatheredLast(a, sources, t);
      MoreCopies(s, own, Gathered(a, front, t), Items(Lookup(target.fields, t)), Items(Lookup(last.fields, t)),
                 Items(Lookup(MergeAll(s, a, sources).fields, t)));
    }
  }

  lemma NothingGathered(a: Content, t: Tag)
    ensures Gathered(a, [], t) == Items(Lookup(a.fields, t))
  {
  }

  lemma GatheredLast(a: Content, sources: seq<Content>, t: Tag)
    requires sources != []
    ensures Gathered(a, sources, t) == Gathered(a, sources[..|sources| - 1], t) + Items(Lookup(sources[|sources| - 1].fields, t))
  {
  }

  lemma NothingMerged(s: Schema, a: Content)
    ensures MergeAll(s, a, []) == a
  {
  }

  /** Copies of some items, and then copies of some more. */
  lemma MoreCopies(s: Schema, own: nat, was: seq<Val>, before: seq<Val>, more: seq<Val>, items: seq<Val>)
    requires |before| == |was| >= own && before[..own] == was[..own] && |items| == |before| + |more| && items[..|before|] == before
    requires forall i :: own <= i < |was| ==> Copies(s, was[i], before[i])
    requires forall i :: 0 <= i < |more| ==> Copies(s, more[i], items[|before| + i])
    ensures items[..own] == (was + more)[..own]
    ensures forall i :: own <= i < |items| ==> Copies(s, (was + more)[i], items[i])
  {
    hide Copies;
    assert items[..own] == items[..|before|][..own];
    forall i | own <= i < |items| ensures Copies(s, (was + more)[i], items[i]) {
      if i < |before| {
        assert items[i] == items[..|before|][i];
      } else {
        assert Copies(s, more[i - |before|], items[|before| + (i - |before|)]);
      }
    }
  }

  lemma TypedList(s: Schema, c: Content, t: Tag)
    requires WellTyped(s, c) && t in s[c.typ] && s[c.typ][t].repeated && t in c.fields
    ensures ValueOk(s, s[c.typ][t], c.fields[t]) && c.fields[t].List?
    ensures Copied(s[c.typ], c.fields, t) <==> c.fields[t].items != []
  {
    hide ItemOk;
  }

  /** A repeated field after one merge. */
  lemma MergedList(s: Schema, target: Content, last: Content, t: Tag)
    requires WellTyped(s, last) && t in s[last.typ] && s[last.typ][t].repeated
    ensures last.typ in s && (t in last.fields ==> ValueOk(s, s[last.typ][t], last.fields[t]) && last.fields[t].List?)
    ensures Items(Lookup(Merge(s, target, last).fields, t)) ==
      Items(Lookup(target.fields, t)) + if t in last.fields then ClonedItems(s, s[last.typ][t], last.fields[t]) else []
  {
    MergedField(s, target, last, t);
    if t in last.fields { TypedList(s, last, t); }
    hide Merge, WellTyped, ValueOk, ClonedItems;
  }

  lemma LastItems(s: Schema, target: Content, last: Content, t: Tag)
    requires WellTyped(s, last) && t in s[last.typ] && s[last.typ][t].repeated
    ensures
      var before, more := Items(Lookup(target.fields, t)), Items(Lookup(last.fields, t));
      var items := Items(Lookup(Merge(s, target, last).fields, t));
      && |items| == |before| + |more| && items[..|before|] == before
      && forall i :: 0 <= i < |more| ==> Copies(s, more[i], items[|before| + i])
  {
    hide *;
    MergedList(s, target, last, t);
    var before, more := Items(Lookup(target.fields, t)), Items(Lookup(last.fields, t));
    if t in last.fields {
      CopiesItems(s, s[last.typ][t], last.fields[t]);
      assert more == last.fields[t].items by { ItemsOf(last.fields, t); }
      ThenCopies(s, before, more, ClonedItems(s, s[last.typ][t], last.fields[t]));
    } else {
      assert more == [] by { NoItemsOf(last.fields, t); }
      ThenCopies(s, before, more, []);
    }
  }

  lemma ItemsOf(fields: map<Tag, Val>, t: Tag)
    requires t in fields && fields[t].List?
    ensures Items(Lookup(fields, t)) == fields[t].items
  {
  }

  lemma NoItemsOf(fields: map<Tag, Val>, t: Tag)
    requires t !in fields
    ensures Items(Lookup(fields, t)) == []
  {
  }

  lemma ThenCopies(s: Schema, before: seq<Val>, more: seq<Val>, added: seq<Val>)
    requires |added| == |more| && forall i :: 0 <= i < |more| ==> Copies(s, more[i], added[i])
    ensures (before + added)[..|before|] == before && |before + added| == |before| + |more|
    ensures forall i :: 0 <= i < |more| ==> Copies(s, more[i], (before + added)[|before| + i])
  {
    hide Copies;
  }

  lemma CopiesItems(s: Schema, f: Field, v: Val)
    requires f.repeated && ValueOk(s, f, v)
    ensures |ClonedItems(s, f, v)| == |v.items| && forall i :: 0 <= i < |v.items| ==> Copies(s, v.items[i], ClonedItems(s, f, v)[i])
  {
    hide WellTyped, Merge;
    forall i | 0 <= i < |v.items| ensures Copies(s, v.items[i], ClonedItems(s, f, v)[i]) {
      assert ItemOk(s, f.kind, v.items[i]);
      assert ClonedItems(s, f, v)[i] == ClonedItem(s, f.kind, v.items[i]);
    }
  }

  /** A sub-message holds what its own merges with the sub-messages of the sources make of it. */
  lemma {:induction false} ChildrenAreMerged(s: Schema, a: Content, sources: seq<Content>, t: Tag)
    requires AllTyped(s, a.typ, sources) && a.typ in s && t in s[a.typ] && !s[a.typ][t].repeated && s[a.typ][t].kind.Composite?
    requires Child(Lookup(a.fields, t), s[a.typ][t].kind.typ).typ == s[a.typ][t].kind.typ
    ensures
      var typ, kids := s[a.typ][t].kind.typ, Kids(sources, t);
      && AllTyped(s, typ, kids)
      && (t in MergeAll(s, a, sources).fields <==> t in a.fields || kids != [])
      && Child(Lookup(MergeAll(s, a, sources).fields, t), typ) == MergeAll(s, Child(Lookup(a.fields, t), typ), kids)
  {
    hide Merge, MergeAll;
    if sources == [] {
      NothingMerged(s, a);
      NothingMerged(s, Child(Lookup(a.fields, t), s[a.typ][t].kind.typ));
    } else {
      var front, last := sources[..|sources| - 1], sources[|sources| - 1];
      LastMerge(s, a, sources);
      ChildrenAreMerged(s, a, front, t);
      MergedField(s, MergeAll(s, a, front), last, t);
      var kids, before := Kids(sources, t), Kids(front, t);
      if t in last.fields {
        assert ItemOk(s, s[a.typ][t].kind, last.fields[t]) by { assert ValueOk(s, s[a.typ][t], last.fields[t]); }
        assert kids == before + [last.fields[t].content] && kids[..|kids| - 1] == before;
        LastMerge(s, Child(Lookup(a.fields, t), s[a.typ][t].kind.typ), kids);
      } else {
        assert kids == before;
      }
    }
  }
}
