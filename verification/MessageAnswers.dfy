/**
 * What the accessors of a message answer, told from the history of calls alone: the values set,
 * added and cleared so far.
 */
module MessageAnswers {
  import opened ProtoMessages
  import opened PbLite
  import opened MessageStores

  /** A value of the native type of the field, or a message of its message type. */
  ghost predicate Suits(kind: Kind, v: Val) {
    if kind.Composite? then v.Msg? && v.content.typ == kind.typ else ItemOk(map[], kind, v)
  }

  /** A call that changes the message and breaks no rule. */
  ghost predicate Legal(d: Descriptor, op: Op) {
    match op
    case Set(t, v) => t in d && !d[t].repeated && Suits(d[t].kind, v)
    case Add(t, v) => t in d && d[t].repeated && Suits(d[t].kind, v)
    case Clear(t) => t in d
    case SetUnknown(t, v) => t !in d && t >= 1 && v != Null
    case _ => false
  }

  /**
   * What a field holds after a sequence of calls on a message that held the given fields before: the
   * value set last, or the values added since the field was cleared last.
   */
  ghost function Held(d: Descriptor, fields: map<Tag, Val>, ops: seq<Op>, t: Tag): Option<Val> {
    if ops == [] then Lookup(fields, t)
    else
      var op, before := ops[|ops| - 1], Held(d, fields, ops[..|ops| - 1], t);
      if op.t != t || !Legal(d, op) then before
      else if op.Clear? then None
      else if op.Add? then Some(List(Items(before) + [op.v]))
      else Some(op.v)
  }

  /** The value, or the item at an index, of a field that holds this; nothing is null. */
  ghost function Fetched(f: Field, held: Option<Val>, i: int): Answer {
    if f.repeated then if 0 <= i < |Items(held)| then Value(Items(held)[i]) else Failed
    else Value(if held.Some? then held.value else Null)
  }

  /** What a call answers when the field holds this. */
  ghost function Answered(d: Descriptor, held: Option<Val>, op: Op): Answer {
    match op
    case HasValue(t) => if t in d then Flag(held.Some?) else Failed
    case Get(t, i) => if t in d then Fetched(d[t], held, i) else Failed
    case GetOrDefault(t, i) =>
      if t !in d then Failed else if held.None? then Value(d[t].fallback) else Fetched(d[t], held, i)
    case ArrayOf(t) => if t in d && d[t].repeated then Value(List(Items(held))) else Failed
    case CountOf(t) =>
      if t !in d then Failed else if d[t].repeated then Count(|Items(held)|) else Count(if held.Some? then 1 else 0)
    case _ => if Legal(d, op) then Done else Failed
  }

  // ----- the eager message -----

  /** A field of a well-typed message: a repeated field holds a list, any other field no array. */
  ghost predicate Proper(f: Field, v: Val) {
    Present(v) && if f.repeated then v.List? else !IsArray(v)
  }

  lemma TypedIsProper(s: Schema, c: Content, t: Tag)
    requires WellTyped(s, c) && t in c.fields && t in s[c.typ]
    ensures Proper(s[c.typ][t], c.fields[t])
  {
    assert ValueOk(s, s[c.typ][t], c.fields[t]);
    if !s[c.typ][t].repeated { assert ItemOk(s, s[c.typ][t].kind, c.fields[t]); }
  }

  ghost predicate AllProper(d: Descriptor, fields: map<Tag, Val>) {
    forall t :: t in d && t in fields ==> Proper(d[t], fields[t])
  }

  lemma {:induction false} RunAppends(st: Store, ops: seq<Op>, op: Op)
    ensures
      var r, next := Run(st, ops), Do(Run(st, ops).store, op);
      && Run(st, ops + [op]).store == next.store && Run(st, ops + [op]).answers == r.answers + [next.answer]
      && |r.answers| == |ops|
    decreases |ops|
  {
    hide Do;
    if ops == [] {
      assert [op][1..] == [] && [] + [op] == [op];
    } else {
      var rest := Run(Do(st, ops[0]).store, ops[1..]);
      RunAppends(Do(st, ops[0]).store, ops[1..], op);
      assert (ops + [op])[1..] == ops[1..] + [op];
      var next := Do(rest.store, op);
      assert [Do(st, ops[0]).answer] + (rest.answers + [next.answer]) == ([Do(st, ops[0]).answer] + rest.answers) + [next.answer];
    }
  }

  /** One call on an eager message. */
  lemma EagerStep(st: Store, op: Op)
    requires st.memo.None? && AllProper(st.Descriptor(), st.values)
    ensures
      var r, d := Do(st, op), st.Descriptor();
      && r.answer == Answered(d, Lookup(st.values, op.t), op)
      && r.store.memo.None? && r.store.Descriptor() == d && AllProper(d, r.store.values)
      && forall t :: Lookup(r.store.values, t) ==
           if op.t != t || !Legal(d, op) then Lookup(st.values, t)
           else if op.Clear? then None
           else if op.Add? then Some(List(Items(Lookup(st.values, t)) + [op.v]))
           else Some(op.v)
  {
  }

  /** A whole sequence of calls on an eager message: what it holds in every field in the end. */
  lemma {:induction false} HistoryIsHeld(st: Store, ops: seq<Op>)
    requires st.memo.None? && AllProper(st.Descriptor(), st.values)
    ensures
      var r := Run(st, ops).store;
      && r.memo.None? && r.Descriptor() == st.Descriptor() && AllProper(r.Descriptor(), r.values)
      && forall t :: Lookup(r.values, t) == Held(st.Descriptor(), st.values, ops, t)
  {
    if ops != [] {
      var front, op := ops[..|ops| - 1], ops[|ops| - 1];
      HistoryIsHeld(st, front);
      assert ops == front + [op];
      RunAppends(st, front, op);
      EagerStep(Run(st, front).store, op);
      hide Run, Do, AllProper, Legal;
    }
  }

  /** Every call is answered by what the calls before it put into the field. */
  lemma {:induction false} EagerAnswers(st: Store, ops: seq<Op>, k: nat)
    requires st.memo.None? && AllProper(st.Descriptor(), st.values) && k < |ops|
    ensures |Run(st, ops).answers| == |ops|
    ensures Run(st, ops).answers[k] == Answered(st.Descriptor(), Held(st.Descriptor(), st.values, ops[..k], ops[k].t), ops[k])
  {
    var front, op := ops[..|ops| - 1], ops[|ops| - 1];
    assert ops == front + [op];
    RunAppends(st, front, op);
    if k < |front| {
      EagerAnswers(st, front, k);
      assert front[..k] == ops[..k];
    } else {
      HistoryIsHeld(st, front);
      EagerStep(Run(st, front).store, op);
    }
    hide Run, Do, Held, Answered;
  }

  lemma TypedStore(s: Schema, zero: bool, c: Content)
    requires WellTyped(s, c)
    ensures Store(s, c.typ, c.fields, None, zero).Descriptor() == s[c.typ] && AllProper(s[c.typ], c.fields)
  {
    forall t | t in s[c.typ] && t in c.fields ensures Proper(s[c.typ][t], c.fields[t]) {
      TypedIsProper(s, c, t);
    }
  }

  /**
   * A well-typed message, held eagerly, answers every call of every sequence by what its fields held
   * before and what the calls so far have set, added and cleared.
   */
  lemma AnswersTellHistory(s: Schema, zero: bool, c: Content, ops: seq<Op>, k: nat)
    requires WellTyped(s, c) && k < |ops|
    ensures
      var answers := Run(Store(s, c.typ, c.fields, None, zero), ops).answers;
      |answers| == |ops| && answers[k] == Answered(s[c.typ], Held(s[c.typ], c.fields, ops[..k], ops[k].t), ops[k])
  {
    TypedStore(s, zero, c);
    EagerAnswers(Store(s, c.typ, c.fields, None, zero), ops, k);
  }

  /** So does a message that was deserialized from its serialization, unless true is added to booleans. */
  lemma LazyAnswersTellHistory(s: Schema, zero: bool, c: Content, ops: seq<Op>, k: nat)
    requires WellTyped(s, c) && k < |ops|
    requires NoAddsTrue(Deserialized(s, zero, c.typ, Encoded(s, zero, c)), ops)
    ensures
      var answers := Run(Deserialized(s, zero, c.typ, Encoded(s, zero, c)), ops).answers;
      |answers| == |ops| && answers[k] == Answered(s[c.typ], Held(s[c.typ], c.fields, ops[..k], ops[k].t), ops[k])
  {
    DeserializedAnswersAsOriginal(s, zero, c, ops);
    AnswersTellHistory(s, zero, c, ops, k);
  }

  // ----- what this says of single fields -----

  /** The values of the calls that add to a field. */
  ghost function Added(d: Descriptor, ops: seq<Op>, t: Tag): seq<Val> {
    if ops == [] then []
    else
      var op, before := ops[|ops| - 1], Added(d, ops[..|ops| - 1], t);
      if op.Add? && op.t == t && Legal(d, op) then before + [op.v] else before
  }

  ghost predicate Clears(ops: seq<Op>, t: Tag) {
    exists i :: 0 <= i < |ops| && ops[i] == Clear(t)
  }

  /** From an empty field on: the values added since, in order. */
  lemma {:induction false} AddedSinceCleared(d: Descriptor, fields: map<Tag, Val>, ops: seq<Op>, more: seq<Op>, t: Tag)
    requires t in d && d[t].repeated && !Clears(more, t) && Items(Held(d, fields, ops, t)) == []
    ensures Items(Held(d, fields, ops + more, t)) == Added(d, more, t)
    decreases |more|
  {
    if more == [] {
      assert ops + more == ops;
    } else {
      var front, op := more[..|more| - 1], more[|more| - 1];
      assert (ops + more)[..|ops + more| - 1] == ops + front && (ops + more)[|ops + more| - 1] == op;
      forall i | 0 <= i < |front| ensures front[i] != Clear(t) { assert front[i] == more[i]; }
      AddedSinceCleared(d, fields, ops, front, t);
      assert op != Clear(t);
    }
  }

  /**
   * After a field was cleared last, get gives the values added since, by their number; the list of
   * values and their count are those of the values added since.
   */
  lemma AddedIsAnswered(s: Schema, zero: bool, c: Content, ops: seq<Op>, more: seq<Op>, t: Tag, i: int)
    requires WellTyped(s, c) && t in s[c.typ] && s[c.typ][t].repeated && !Clears(more, t)
    ensures
      var calls, added := ops + [Clear(t)] + more, Added(s[c.typ], more, t);
      var answers := Run(Store(s, c.typ, c.fields, None, zero), calls + [Get(t, i), ArrayOf(t), CountOf(t)]).answers;
      && |answers| == |calls| + 3
      && answers[|calls|] == (if 0 <= i < |added| then Value(added[i]) else Failed)
      && answers[|calls| + 1] == Value(List(added)) && answers[|calls| + 2] == Count(|added|)
  {
    var d, calls := s[c.typ], ops + [Clear(t)] + more;
    var last := [Get(t, i), ArrayOf(t), CountOf(t)];
    HeldSinceCleared(d, c.fields, ops, more, t);
    ReadsAnswer(s, zero, c, calls, last, 0);
    ReadsAnswer(s, zero, c, calls, last, 1);
    ReadsAnswer(s, zero, c, calls, last, 2);
    hide Run, Held, Added, Clears;
  }

  lemma HeldSinceCleared(d: Descriptor, fields: map<Tag, Val>, ops: seq<Op>, more: seq<Op>, t: Tag)
    requires t in d && d[t].repeated && !Clears(more, t)
    ensures Items(Held(d, fields, ops + [Clear(t)] + more, t)) == Added(d, more, t)
  {
    var cleared := ops + [Clear(t)];
    assert cleared[..|cleared| - 1] == ops;
    assert Held(d, fields, cleared, t) == None;
    AddedSinceCleared(d, fields, cleared, more, t);
  }

  ghost predicate ReadsOnly(d: Descriptor, last: seq<Op>) {
    forall i :: 0 <= i < |last| ==> !Legal(d, last[i])
  }

  lemma {:induction false} ReadingHolds(d: Descriptor, fields: map<Tag, Val>, ops: seq<Op>, last: seq<Op>, t: Tag)
    requires ReadsOnly(d, last)
    ensures Held(d, fields, ops + last, t) == Held(d, fields, ops, t)
    decreases |last|
  {
    if last == [] {
      assert ops + last == ops;
    } else {
      var front, op := last[..|last| - 1], last[|last| - 1];
      assert (ops + last)[..|ops + last| - 1] == ops + front && (ops + last)[|ops + last| - 1] == op;
      ReadingHolds(d, fields, ops, front, t);
    }
  }

  lemma ReadsAnswer(s: Schema, zero: bool, c: Content, calls: seq<Op>, last: seq<Op>, j: nat)
    requires WellTyped(s, c) && ReadsOnly(s[c.typ], last) && j < |last|
    ensures
      var answers := Run(Store(s, c.typ, c.fields, None, zero), calls + last).answers;
      && |answers| == |calls| + |last|
      && answers[|calls| + j] == Answered(s[c.typ], Held(s[c.typ], c.fields, calls, last[j].t), last[j])
  {
    hide Run, Held, Answered;
    AnswersTellHistory(s, zero, c, calls + last, |calls| + j);
    assert (calls + last)[..|calls| + j] == calls + last[..j];
    ReadingHolds(s[c.typ], c.fields, calls, last[..j], last[j].t);
  }
}
