/**
 * Every eager message a program can build, by setting, adding, clearing, merging and copying, is
 * equal to its clone.
 */
module MessageHistories {
  import opened ProtoMessages
  import opened MessageStores
  import opened MessageEquality

  datatype Change = Call(op: Op) | MergeFrom(source: Content) | CopyFrom(source: Content)

  function Changed(s: Schema, c: Content, change: Change): Content
    requires change.Call? || WellTyped(s, change.source)
  {
    match change
    case Call(op) => Content(c.typ, Do(Store(s, c.typ, c.fields, None, false), op).store.values)
    case MergeFrom(source) => Merge(s, c, source)
    case CopyFrom(source) => Clone(s, source)
  }

  /** A sub-message that is set or added was itself built like this. */
  predicate Fit(s: Schema, typ: TypeName, change: Change) {
    match change
    case Call(op) => (op.Set? || op.Add?) && op.v.Msg? ==> WellTyped(s, op.v.content) && NoEmptyList(s, op.v.content)
    case MergeFrom(source) => WellTyped(s, source) && source.typ == typ
    case CopyFrom(source) => WellTyped(s, source) && source.typ == typ
  }

  predicate AllFit(s: Schema, typ: TypeName, changes: seq<Change>) {
    forall i :: 0 <= i < |changes| ==> Fit(s, typ, changes[i])
  }

  function Built(s: Schema, c: Content, changes: seq<Change>): Content
    requires AllFit(s, c.typ, changes)
    decreases |changes|
  {
    if changes == [] then c
    else
      assert Fit(s, c.typ, changes[0]);
      Built(s, Changed(s, c, changes[0]), changes[1..])
  }

  lemma CallKeepsNoEmpty(s: Schema, c: Content, op: Op)
    requires WellTyped(s, c) && NoEmptyList(s, c) && Fit(s, c.typ, Call(op))
    ensures WellTyped(s, Changed(s, c, Call(op))) && NoEmptyList(s, Changed(s, c, Call(op)))
  {
    var d := Changed(s, c, Call(op));
    forall t | t in d.fields && t in s[c.typ]
      ensures ValueOk(s, s[c.typ][t], d.fields[t]) && NoEmptyValue(s, s[c.typ][t], d.fields[t])
    {
      if t in c.fields && d.fields[t] == c.fields[t] {
        assert NoEmptyValue(s, s[c.typ][t], c.fields[t]);
      } else {
        assert (op.Set? || op.Add?) && op.t == t && TypeMatches(s[c.typ][t].kind, op.v);
        assert ItemOk(s, s[c.typ][t].kind, op.v) && NoEmptyItem(s, s[c.typ][t].kind, op.v);
        if op.Add? && t in c.fields { assert ValueOk(s, s[c.typ][t], c.fields[t]); }
      }
    }
  }

  lemma {:induction false} HistoryKeepsNoEmpty(s: Schema, c: Content, changes: seq<Change>)
    requires WellTyped(s, c) && NoEmptyList(s, c) && AllFit(s, c.typ, changes)
    ensures WellTyped(s, Built(s, c, changes)) && NoEmptyList(s, Built(s, c, changes)) && Built(s, c, changes).typ == c.typ
    decreases |changes|
  {
    if changes != [] {
      assert Fit(s, c.typ, changes[0]);
      match changes[0] {
        case Call(op) => CallKeepsNoEmpty(s, c, op);
        case MergeFrom(source) => MergeNeverEmpty(s, c, source);
        case CopyFrom(source) => MergeNeverEmpty(s, Empty(source.typ), source);
      }
      HistoryKeepsNoEmpty(s, Changed(s, c, changes[0]), changes[1..]);
    }
  }

  /** Whatever calls built a message from a new one, its clone equals it. */
  lemma BuiltMessagesEqualTheirClones(s: Schema, typ: TypeName, changes: seq<Change>)
    requires typ in s && AllFit(s, typ, changes)
    ensures
      var c := Built(s, Empty(typ), changes);
      WellTyped(s, c) && WellTyped(s, Clone(s, c)) && Equals(s, Clone(s, c), c)
  {
    HistoryKeepsNoEmpty(s, Empty(typ), changes);
    CloneEqualsExactlyWhen(s, Built(s, Empty(typ), changes));
  }
}
