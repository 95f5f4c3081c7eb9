/** What the cache promises over whole runs: reads are justified by the log, lazy deletes and sweeps do not show. */
module SecretCacheTheorems {
  import opened Wrappers
  import opened SecretCache
  import opened SecretCacheRuns

  /** The clock has reached `t` and read nothing later. */
  ghost predicate ClockBy<R(!new), V(!new)>(log: seq<Op<R, V>>, t: int) {
    forall j :: 0 <= j < |log| && Clock(log[j]).Some? ==> Clock(log[j]).value <= t
  }

  /** Nothing but a store or a serve gives an entry or moves a deadline: whatever else is done, an entry stays as it was
      or goes. */
  lemma OnlyStoresStamp<R, V>(s: State<R, V>, op: Op<R, V>, k: Key<R>)
    requires !Gives(op, k)
    ensures Get(Apply(s, op).0, k) == None || Get(Apply(s, op).0, k) == Get(s, k)
  {
    StepByKey(s, op, k);
    hide Apply, Get;
  }

  /** In every run, a read answers a value only if the last store of its ref gave it, nothing has forgotten or cleared
      it since, and its deadline is ahead, or it is session-held with an operator standing and none but them gone. */
  lemma ReadIsJustified<R(!new), V(!new)>(log: seq<Op<R, V>>, ref: R, t: int) returns (i: nat, deadline: Deadline)
    requires Apply(Run(log), Read(ref, t)).1.Plain?
    ensures Origin(log, i, Value(ref), Entry(Some(Apply(Run(log), Read(ref, t)).1.value), deadline))
    ensures if deadline.Some? then t < deadline.value else Operators(log) > 0
  {
    var k := Value(ref);
    RunAgrees(log, k);
    AnswersByKey(Run(log), ref, 0, t);
    hide Apply, Get, Run, Operators, Origin, SweptSince;
    OneOriginOrNone(log, k);
    var e: Entry<V>;
    i, e :| Origin(log, i, k, e);
    deadline := e.deadline;
    assert Get(Run(log), k) == Some(e);
    ValueHasValue(Run(log), ref);
  }

  lemma ValueHasValue<R, V>(s: State<R, V>, ref: R)
    ensures var e := Get(s, Value(ref)); e.Some? ==> e.value.value.Some?
  {
  }

  /** A key without an entry by the log answers nothing. */
  lemma NothingWithoutOrigin<R(!new), V(!new)>(log: seq<Op<R, V>>, k: Key<R>, t: int)
    requires NoOrigin(log, k)
    ensures AnswerOf(Get(Run(log), k), Operators(log), t) == None
  {
    RunAgrees(log, k);
    hide NoOrigin;
  }

  lemma SweptDatedIsPast<R(!new), V(!new)>(log: seq<Op<R, V>>, i: nat, k: Key<R>, e: Entry<V>, t: int)
    requires ClockBy(log, t) && SweptSince(log, i, k, e) && e.deadline.Some?
    ensures e.deadline.value <= t
  {
    var j :| i < j < |log| && SweptAt(log, j, k, e);
    assert Clock(log[j]).Some?;
  }

  /** A probe at `t` answers just as the log says its entry should, lazy deletes and sweeps or none, except for a
      session-held entry that was probed or swept while no operator stood and is asked for with one standing. */
  lemma ProbesFollowTheLog<R(!new), V(!new)>(log: seq<Op<R, V>>, i: nat, k: Key<R>, e: Entry<V>, t: int)
    requires ClockBy(log, t) && Origin(log, i, k, e)
    ensures AnswerOf(Get(Run(log), k), Operators(log), t) == AnswerOf(Some(e), Operators(log), t)
       <==> !(e.deadline.None? && Operators(log) > 0 && SweptSince(log, i, k, e))
  {
    RunAgrees(log, k);
    hide Get, Run, Operators, Origin, SweptSince, ClockBy;
    if SweptSince(log, i, k, e) && e.deadline.Some? {
      SweptDatedIsPast(log, i, k, e, t);
    }
  }

  /** A dated secret reads back until its deadline and locked from then on, whatever came between. */
  lemma DatedReadsFollowTheLog<R(!new), V(!new)>(log: seq<Op<R, V>>, i: nat, ref: R, value: V, deadline: int, t: int)
    requires ClockBy(log, t) && Origin(log, i, Value(ref), Entry(Some(value), Some(deadline)))
    ensures Apply(Run(log), Read(ref, t)).1 == if t < deadline then Plain(value) else Locked
  {
    ProbesFollowTheLog(log, i, Value(ref), Entry(Some(value), Some(deadline)), t);
    AnswersByKey(Run(log), ref, 0, t);
    RunAgrees(log, Value(ref));
    hide Apply, Get, Run, Operators, Origin, SweptSince, ClockBy;
  }

  // ---- the window of an unlock ----

  /** Operation `i` is the last to store `ref`, and nothing has cleared or forgotten it since. */
  ghost predicate LastStore<R(!new), V(!new)>(log: seq<Op<R, V>>, i: nat, ref: R) {
    && i < |log| && log[i].Store? && ref in log[i].secrets
    && forall j :: i < j < |log| ==>
         && (log[j].Store? ==> ref !in log[j].secrets) && !log[j].Clear? && (log[j].Forget? ==> ref !in log[j].refs)
  }

  /** Operation `i` is the last to serve row `id`, and nothing has cleared or forgotten it since. */
  ghost predicate LastServe<R(!new), V(!new)>(log: seq<Op<R, V>>, i: nat, id: int) {
    && i < |log| && log[i].Serve? && id in log[i].ids
    && forall j :: i < j < |log| ==>
         && (log[j].Serve? ==> id !in log[j].ids) && !log[j].Clear? && (log[j].Forget? ==> id !in log[j].ids)
  }

  /** An unlock with a window reads back for that long from its own time, and is locked from then on: nothing between
      resets, stretches or shortens it. */
  lemma UnlockLastsItsWindow<R(!new), V(!new)>(log: seq<Op<R, V>>, i: nat, ref: R, t: int)
    requires ClockBy(log, t) && LastStore(log, i, ref) && log[i].window != 0
    ensures Apply(Run(log), Read(ref, t)).1
         == if t < log[i].now + log[i].window then Plain(log[i].secrets[ref]) else Locked
  {
    var value, deadline := log[i].secrets[ref], log[i].now + log[i].window;
    assert Origin(log, i, Value(ref), Entry(Some(value), Some(deadline)));
    DatedReadsFollowTheLog(log, i, ref, value, deadline, t);
  }

  /** Likewise a served row admits an unlock for the window from its serving. */
  lemma ServingLastsItsWindow<R(!new), V(!new)>(log: seq<Op<R, V>>, i: nat, id: int, t: int)
    requires ClockBy(log, t) && LastServe(log, i, id) && log[i].window != 0
    ensures Apply(Run(log), ServedAlive(id, t)).1 == Alive(t < log[i].now + log[i].window)
  {
    var deadline := log[i].now + log[i].window;
    var k, e := Marker(id), Entry(None, Some(deadline));
    assert Origin(log, i, k, e);
    ProbesFollowTheLog(log, i, k, e, t);
    RunAgrees(log, k);
    ServedByKey(Run(log), id, t);
    hide Apply, Get, Run, Operators, Origin, SweptSince, ClockBy;
  }

  lemma ServedByKey<R, V>(s: State<R, V>, id: int, now: int)
    ensures var e := AnswerOf(Get(s, Marker(id)), s.operators, now);
      Apply(s, ServedAlive(id, now)).1 == Alive(e.Some?)
  {
  }

  /** Since operation `i` no disconnect has left the operators' count at zero. */
  ghost predicate AttendedSince<R(!new), V(!new)>(log: seq<Op<R, V>>, i: nat) {
    forall j :: i < j < |log| && log[j].Disconnect? ==> Operators(log[..j + 1]) > 0
  }

  /** Since operation `i` a sweep, or a read of the ref, has found no operator standing. */
  ghost predicate ProbedUnattended<R(!new), V(!new)>(log: seq<Op<R, V>>, i: nat, ref: R) {
    exists j :: i < j < |log| && IsProbe(log[j], ref) && Operators(log[..j]) == 0
  }

  ghost predicate IsProbe<R(!new), V(!new)>(op: Op<R, V>, ref: R) {
    op.Flush? || (op.Read? && op.ref == ref)
  }

  /** An unlock with a zero window is held for the session: it reads back exactly while an operator stands, none but the
      last has gone since, and no read or sweep came upon it with none standing. */
  lemma UnlockWithoutWindow<R(!new), V(!new)>(log: seq<Op<R, V>>, i: nat, ref: R, t: int)
    requires LastStore(log, i, ref) && log[i].window == 0
    ensures Apply(Run(log), Read(ref, t)).1
         == if Operators(log) > 0 && AttendedSince(log, i) && !ProbedUnattended(log, i, ref)
            then Plain(log[i].secrets[ref]) else Locked
  {
    var k, e := Value(ref), Entry(Some(log[i].secrets[ref]), None);
    RunAgrees(log, k);
    AnswersByKey(Run(log), ref, 0, t);
    if AttendedSince(log, i) {
      assert Origin(log, i, k, e);
      SessionSwept(log, i, ref, e);
    } else {
      UnattendedHasNoOrigin(log, i, ref);
    }
    hide Apply, Get, Run, Operators, Origin, SweptSince, AttendedSince, ProbedUnattended, LastStore;
  }

  lemma SessionSwept<R(!new), V(!new)>(log: seq<Op<R, V>>, i: nat, ref: R, e: Entry<V>)
    requires e.deadline.None?
    ensures SweptSince(log, i, Value(ref), e) <==> ProbedUnattended(log, i, ref)
  {
    hide Operators;
    if j :| i < j < |log| && SweptAt(log, j, Value(ref), e) {
      assert IsProbe(log[j], ref);
    }
    if j :| i < j < |log| && IsProbe(log[j], ref) && Operators(log[..j]) == 0 {
      assert SweptAt(log, j, Value(ref), e);
    }
  }

  lemma UnattendedHasNoOrigin<R(!new), V(!new)>(log: seq<Op<R, V>>, i: nat, ref: R)
    requires LastStore(log, i, ref) && log[i].window == 0 && !AttendedSince(log, i)
    ensures NoOrigin(log, Value(ref))
  {
    var j :| i < j < |log| && log[j].Disconnect? && Operators(log[..j + 1]) == 0;
    forall n: nat, e: Entry<V> ensures !Origin(log, n, Value(ref), e) {
      assert n < i ==> Gives(log[i], Value(ref));
      assert Origin(log, n, Value(ref), e) && n < i ==> Untouched(log, i, Value(ref), e);
      assert Origin(log, n, Value(ref), e) && n == i ==> Untouched(log, j, Value(ref), e);
    }
  }

  // ---- sweeps ----

  /** A sweep answers how many entries it took. */
  lemma FlushCountsWhatGoes<R(!new), V(!new)>(s: State<R, V>, now: int)
    ensures var (swept, answer) := Apply(s, Flush(now));
      answer.Flushed? && answer.count + |swept.values| + |swept.served| == |s.values| + |s.served|
  {
    SweptParts(s, now);
    ExpiredParts(s, now);
    hide *;
    var dead := ExpiredKeys(s, now);
    var refs := DeadKeys(ValueDeadlines(s.values), s.operators, now);
    var ids := DeadKeys(s.served, s.operators, now);
    ValuesLeft(s.values, dead, refs);
    MarkersLeft(s.served, dead, ids);
    var values, markers := ValueKeys(refs), MarkerKeys<R>(ids);
    assert |values + markers| == |values| + |markers|;
  }

  lemma SweptParts<R, V>(s: State<R, V>, now: int)
    ensures var (swept, answer) := Apply(s, Flush(now));
      && swept.values == WithoutValues(s.values, ExpiredKeys(s, now))
      && swept.served == WithoutMarkers(s.served, ExpiredKeys(s, now))
      && answer == Flushed(|ExpiredKeys(s, now)|)
  {
    hide ExpiredKeys, WithoutValues, WithoutMarkers;
  }

  lemma ExpiredParts<R(!new), V>(s: State<R, V>, now: int)
    ensures var refs := DeadKeys(ValueDeadlines(s.values), s.operators, now);
      var ids := DeadKeys(s.served, s.operators, now);
      && ExpiredKeys(s, now) == ValueKeys(refs) + MarkerKeys(ids) && ValueKeys(refs) !! MarkerKeys(ids)
      && refs <= s.values.Keys && ids <= s.served.Keys
      && (forall r :: Value(r) in ExpiredKeys(s, now) <==> r in refs)
      && forall i :: Marker(i) in ExpiredKeys(s, now) <==> i in ids
  {
    hide Live;
  }

  lemma ValuesLeft<R, V>(values: map<R, Secret<V>>, dead: set<Key<R>>, refs: set<R>)
    requires refs <= values.Keys && forall r :: Value(r) in dead <==> r in refs
    ensures |WithoutValues(values, dead)| + |refs| == |values|
  {
    assert WithoutValues(values, dead).Keys == values.Keys - refs;
    assert |values.Keys - refs| == |values.Keys| - |refs|;
  }

  lemma MarkersLeft<R>(served: map<int, Deadline>, dead: set<Key<R>>, ids: set<int>)
    requires ids <= served.Keys && forall i :: Marker(i) in dead <==> i in ids
    ensures |WithoutMarkers(served, dead)| + |ids| == |served|
  {
    assert WithoutMarkers(served, dead).Keys == served.Keys - ids;
    assert |served.Keys - ids| == |served.Keys| - |ids|;
  }

  ghost function Image<A(!new), B(!new)>(s: set<A>, f: A -> B): (image: set<B>)
    ensures forall y :: y in image <==> exists x :: x in s && f(x) == y
  {
    set x | x in s :: f(x)
  }

  ghost function ValueKeys<R(!new)>(refs: set<R>): (keys: set<Key<R>>)
    ensures forall k: Key<R> :: k in keys <==> k.Value? && k.ref in refs
    ensures |keys| == |refs|
  {
    var value := (r: R) => Value(r);
    ImageSize(refs, value);
    Image(refs, value)
  }

  ghost function MarkerKeys<R(!new)>(ids: set<int>): (keys: set<Key<R>>)
    ensures forall k: Key<R> :: k in keys <==> k.Marker? && k.id in ids
    ensures |keys| == |ids|
  {
    var marker: int -> Key<R> := i => Marker(i);
    ImageSize(ids, marker);
    Image(ids, marker)
  }

  lemma {:induction false} ImageSize<A(!new), B(!new)>(s: set<A>, f: A -> B)
    requires forall x, y :: x != y ==> f(x) != f(y)
    ensures |Image(s, f)| == |s|
    decreases |s|
  {
    if s == {} {
      assert Image(s, f) == {};
    } else {
      var x :| x in s;
      ImageSize(s - {x}, f);
      assert Image(s, f) == Image(s - {x}, f) + {f(x)};
    }
  }

  /** What a caller sees of an answer: how many entries a later sweep finds is not its concern. */
  function Seen<V>(answer: Answer<V>): Answer<V> {
    if answer.Flushed? then Done else answer
  }

  function Answers<R(==), V>(s: State<R, V>, ops: seq<Op<R, V>>): seq<Answer<V>>
    decreases |ops|
  {
    if ops == [] then [] else [Seen(Apply(s, ops[0]).1)] + Answers(Apply(s, ops[0]).0, ops[1..])
  }

  ghost predicate ClockFrom<R(!new), V(!new)>(ops: seq<Op<R, V>>, t: int) {
    forall j :: 0 <= j < |ops| && Clock(ops[j]).Some? ==> t <= Clock(ops[j]).value
  }

  /** A sweep at `t` never shows: whatever is asked from then on is answered as it would be without. */
  ghost predicate FlushIsInvisible<R(!new), V(!new)>(s: State<R, V>, t: int) {
    forall ops: seq<Op<R, V>> :: ClockFrom(ops, t) ==> Answers(Apply(s, Flush(t)).0, ops) == Answers(s, ops)
  }

  ghost predicate HoldsSession<R(!new), V(!new)>(s: State<R, V>) {
    exists k: Key<R> :: Get(s, k).Some? && Get(s, k).value.deadline.None?
  }

  /** `thin` is `s` without some entries that are past by `t`. */
  ghost predicate Thinner<R(!new), V(!new)>(thin: State<R, V>, s: State<R, V>, t: int) {
    && thin.operators == s.operators
    && forall k: Key<R> :: Get(thin, k) == Get(s, k) || (Get(thin, k) == None && IsPast(Get(s, k), t))
  }

  ghost predicate IsPast<V>(entry: Option<Entry<V>>, t: int) {
    entry.Some? && entry.value.deadline.Some? && entry.value.deadline.value <= t
  }

  lemma PastStaysUnseen<R(!new), V(!new)>(thin: State<R, V>, s: State<R, V>, t: int, op: Op<R, V>)
    requires Thinner(thin, s, t) && (Clock(op).Some? ==> t <= Clock(op).value)
    ensures Seen(Apply(thin, op).1) == Seen(Apply(s, op).1)
  {
    hide Get;
    match op
    case Read(ref, now) => AnswersByKey(thin, ref, 0, now); AnswersByKey(s, ref, 0, now);
    case ServedAlive(id, now) => AnyRef(thin, s, t, id, now);
    case _ =>
  }

  lemma AnyRef<R(!new), V(!new)>(thin: State<R, V>, s: State<R, V>, t: int, id: int, now: int)
    requires Thinner(thin, s, t) && t <= now
    ensures Apply(thin, ServedAlive(id, now)).1 == Apply(s, ServedAlive(id, now)).1
  {
    assert Get(thin, Marker(id)) == Get(s, Marker(id)) || IsPast(Get(s, Marker(id)), t);
  }

  lemma ThinnerStays<R(!new), V(!new)>(thin: State<R, V>, s: State<R, V>, t: int, op: Op<R, V>)
    requires Thinner(thin, s, t) && (Clock(op).Some? ==> t <= Clock(op).value)
    ensures Thinner(Apply(thin, op).0, Apply(s, op).0, t)
  {
    var thin', s' := Apply(thin, op).0, Apply(s, op).0;
    forall k: Key<R>
      ensures Get(thin', k) == Get(s', k) || (Get(thin', k) == None && IsPast(Get(s', k), t))
    {
      StepByKey(thin, op, k);
      StepByKey(s, op, k);
      hide Get, Apply, Gives, Removes;
    }
    OperatorsByStep(thin, s, op);
  }

  lemma OperatorsByStep<R, V>(thin: State<R, V>, s: State<R, V>, op: Op<R, V>)
    requires thin.operators == s.operators
    ensures Apply(thin, op).0.operators == Apply(s, op).0.operators
  {
  }

  lemma {:induction false} ThinnerAnswersAlike<R(!new), V(!new)>(
    thin: State<R, V>, s: State<R, V>, t: int, ops: seq<Op<R, V>>)
    requires Thinner(thin, s, t) && ClockFrom(ops, t)
    ensures Answers(thin, ops) == Answers(s, ops)
    decreases |ops|
  {
    hide Thinner, Apply;
    if ops != [] {
      PastStaysUnseen(thin, s, t, ops[0]);
      ThinnerStays(thin, s, t, ops[0]);
      ThinnerAnswersAlike(Apply(thin, ops[0]).0, Apply(s, ops[0]).0, t, ops[1..]);
    }
  }

  lemma FlushThins<R(!new), V(!new)>(s: State<R, V>, t: int)
    requires s.operators > 0 || !HoldsSession(s)
    ensures Thinner(Apply(s, Flush(t)).0, s, t)
  {
    forall k: Key<R>
      ensures var e := Get(Apply(s, Flush(t)).0, k); e == Get(s, k) || (e == None && IsPast(Get(s, k), t))
    {
      StepByKey<R, V>(s, Flush(t), k);
      hide Apply;
    }
  }

  /** A sweep at `t` is invisible exactly when an operator stands or nothing is session-held: with neither, connecting
      and asking for the swept entry shows the difference. */
  lemma FlushIsInvisibleIff<R(!new), V(!new)>(s: State<R, V>, t: int)
    ensures FlushIsInvisible(s, t) <==> s.operators > 0 || !HoldsSession(s)
  {
    if s.operators > 0 || !HoldsSession(s) {
      FlushThins(s, t);
      forall ops: seq<Op<R, V>> | ClockFrom(ops, t) ensures Answers(Apply(s, Flush(t)).0, ops) == Answers(s, ops) {
        ThinnerAnswersAlike(Apply(s, Flush(t)).0, s, t, ops);
      }
    } else {
      var k: Key<R> :| Get(s, k).Some? && Get(s, k).value.deadline.None?;
      SweptSessionShows(s, k, t);
    }
  }

  function ProbeOf<R, V>(k: Key<R>, t: int): Op<R, V> {
    match k
    case Value(ref) => Read(ref, t)
    case Marker(id) => ServedAlive(id, t)
  }

  lemma SweptSessionShows<R(!new), V(!new)>(s: State<R, V>, k: Key<R>, t: int)
    requires s.operators == 0 && Get(s, k).Some? && Get(s, k).value.deadline.None?
    ensures !FlushIsInvisible(s, t)
  {
    var probe: Op<R, V> := ProbeOf(k, t);
    var ops := [Connect, probe];
    var swept := Apply(s, Flush(t)).0;
    StepByKey<R, V>(s, Flush(t), k);
    ConnectThenProbe(s, k, t);
    ConnectThenProbe(swept, k, t);
    assert ClockFrom(ops, t);
  }

  /** With an operator newly connected, a probe tells whether the key has an entry that is not past. */
  lemma ConnectThenProbe<R(!new), V(!new)>(s: State<R, V>, k: Key<R>, t: int)
    ensures var answers := Answers(s, [Connect, ProbeOf(k, t)]);
      |answers| == 2 && (answers[1].Plain? || answers[1] == Alive(true) <==> Get(s, k).Some? && !IsPast(Get(s, k), t))
  {
    var probe: Op<R, V> := ProbeOf(k, t);
    var ops := [Connect, probe];
    var s1 := Apply(s, Connect).0;
    assert ops[1..] == [probe];
    assert |[probe][1..]| == 0;
    assert Answers(s1, [probe]) == [Seen(Apply(s1, probe).1)] + Answers(Apply(s1, probe).0, [probe][1..]);
    assert Answers(s, ops) == [Seen(Apply(s, Connect).1)] + Answers(s1, [probe]);
  }

  /** The difference a sweep makes to an unlock with a zero window and no operator: swept, it is gone. */
  lemma SweptUnlockIsLost<R, V>(ref: R, value: V, t: int)
    ensures Apply(Run([Store(map[ref := value], 0, t), Connect]), Read(ref, t)).1 == Plain(value)
    ensures Apply(Run([Store(map[ref := value], 0, t), Flush(t), Connect]), Read(ref, t)).1 == Locked
  {
    var store: Op<R, V>, flush: Op<R, V> := Store(map[ref := value], 0, t), Flush(t);
    var s1 := Apply<R, V>(State(map[], map[], 0), store).0;
    assert [store, flush, Connect][..2] == [store, flush];
    assert [store, flush][..1] == [store] && [store, Connect][..1] == [store];
    assert |[store][..0]| == 0;
    assert Run([store]) == s1;
    assert Value(ref) in ExpiredKeys(s1, t);
    assert Run([store, flush]) == Apply(s1, flush).0;
    assert Run([store, Connect]) == Apply(s1, Connect).0;
    assert Run([store, flush, Connect]) == Apply(Apply(s1, flush).0, Connect).0;
  }
}
