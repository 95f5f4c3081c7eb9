/** Whole runs of the plaintext cache, against the log of what was asked of it. */
module SecretCacheRuns {
  import opened Wrappers
  import opened SecretCache

  // ---- the cache by keys ----

  /** What a key stands for: a secret's value, or nothing for a served marker. */
  datatype Entry<V> = Entry(value: Option<V>, deadline: Deadline)

  function Get<R(==), V>(s: State<R, V>, k: Key<R>): Option<Entry<V>> {
    match k
    case Value(ref) => if ref in s.values then Some(Entry(Some(s.values[ref].value), s.values[ref].deadline)) else None
    case Marker(id) => if id in s.served then Some(Entry(None, s.served[id])) else None
  }

  /** A store gives its refs their entries, a serve its rows theirs. */
  predicate Gives<R(==), V>(op: Op<R, V>, k: Key<R>) {
    match op
    case Store(secrets, _, _) => k.Value? && k.ref in secrets
    case Serve(ids, _, _) => k.Marker? && k.id in ids
    case _ => false
  }

  function Given<R(==), V>(op: Op<R, V>, k: Key<R>): Entry<V>
    requires Gives(op, k)
  {
    match op
    case Store(secrets, window, now) => Entry(Some(secrets[k.ref]), Stamp(window, now))
    case Serve(_, window, now) => Entry(None, Stamp(window, now))
  }

  predicate Removes<R(==), V>(op: Op<R, V>, k: Key<R>) {
    match op
    case Clear => true
    case Forget(refs, ids) => (match k case Value(ref) => ref in refs case Marker(id) => id in ids)
    case _ => false
  }

  /** A read of the key, or a sweep: what drops the entry if it is dead by then. */
  predicate Probes<R(==), V>(op: Op<R, V>, k: Key<R>) {
    match op
    case Read(ref, _) => k == Value(ref)
    case ServedAlive(id, _) => k == Marker(id)
    case Flush(_) => true
    case _ => false
  }

  /** The clock an operation reads, if it reads one. */
  function Clock<R, V>(op: Op<R, V>): Option<int> {
    match op
    case Store(_, _, now) => Some(now)
    case Serve(_, _, now) => Some(now)
    case Read(_, now) => Some(now)
    case ServedAlive(_, now) => Some(now)
    case Flush(now) => Some(now)
    case _ => None
  }

  function OperatorsAfter<R, V>(operators: nat, op: Op<R, V>): nat {
    match op
    case Connect => operators + 1
    case Disconnect => if operators > 0 then operators - 1 else 0
    case _ => operators
  }

  /** One operation as one key sees it. */
  function After<R(==), V>(entry: Option<Entry<V>>, operators: nat, op: Op<R, V>, k: Key<R>): Option<Entry<V>> {
    if Gives(op, k) then Some(Given(op, k))
    else if Removes(op, k) then None
    else if op.Disconnect? && OperatorsAfter(operators, op) == 0 && entry.Some? && entry.value.deadline.None? then None
    else if Probes(op, k) && entry.Some? && !Live(entry.value.deadline, operators, Clock(op).value) then None
    else entry
  }

  lemma StepByKey<R, V>(s: State<R, V>, op: Op<R, V>, k: Key<R>)
    ensures Get(Apply(s, op).0, k) == After(Get(s, k), s.operators, op, k)
    ensures Apply(s, op).0.operators == OperatorsAfter(s.operators, op)
  {
    hide Live, Stamp, ExpiredKeys, WithoutValues, WithoutMarkers;
    if op.Flush? {
      ExpiredByKey(s, op.now, k);
      WithoutByKey(s, ExpiredKeys(s, op.now), k);
    }
  }

  lemma WithoutByKey<R, V>(s: State<R, V>, keys: set<Key<R>>, k: Key<R>)
    ensures Get(s.(values := WithoutValues(s.values, keys), served := WithoutMarkers(s.served, keys)), k)
         == if k in keys then None else Get(s, k)
  {
  }

  lemma ExpiredByKey<R, V>(s: State<R, V>, now: int, k: Key<R>)
    ensures k in ExpiredKeys(s, now) <==> Get(s, k).Some? && !Live(Get(s, k).value.deadline, s.operators, now)
  {
    hide Live;
  }

  /** What a probe answers, from the key's entry alone. */
  function AnswerOf<V>(entry: Option<Entry<V>>, operators: nat, now: int): Option<Entry<V>> {
    if entry.Some? && Live(entry.value.deadline, operators, now) then entry else None
  }

  lemma AnswersByKey<R, V>(s: State<R, V>, ref: R, id: int, now: int)
    ensures var e := AnswerOf(Get(s, Value(ref)), s.operators, now);
      Apply(s, Read(ref, now)).1 == if e.Some? then Plain(e.value.value.value) else Locked
    ensures var e := AnswerOf(Get(s, Marker(id)), s.operators, now);
      Apply(s, ServedAlive(id, now)).1 == Alive(e.Some?)
  {
  }

  // ---- the operation log ----

  function Run<R(==), V>(log: seq<Op<R, V>>): State<R, V> {
    if log == [] then State(map[], map[], 0) else Apply(Run(log[..|log| - 1]), log[|log| - 1]).0
  }

  function Operators<R, V>(log: seq<Op<R, V>>): nat {
    if log == [] then 0 else OperatorsAfter(Operators(log[..|log| - 1]), log[|log| - 1])
  }

  /** Operation `i` gave `k` its entry `e`; nothing has given it another or taken it away since, and if it is
      session-held no disconnect has left the count at zero since. */
  ghost predicate Origin<R(!new), V(!new)>(log: seq<Op<R, V>>, i: nat, k: Key<R>, e: Entry<V>) {
    && i < |log| && Gives(log[i], k) && Given(log[i], k) == e
    && forall j :: i < j < |log| ==> Untouched(log, j, k, e)
  }

  ghost predicate Untouched<R(!new), V(!new)>(log: seq<Op<R, V>>, j: nat, k: Key<R>, e: Entry<V>)
    requires j < |log|
  {
    && !Gives(log[j], k) && !Removes(log[j], k)
    && (log[j].Disconnect? && e.deadline.None? ==> Operators(log[..j + 1]) > 0)
  }

  /** A probe since operation `i` found the entry dead. */
  ghost predicate SweptSince<R(!new), V(!new)>(log: seq<Op<R, V>>, i: nat, k: Key<R>, e: Entry<V>) {
    exists j :: i < j < |log| && SweptAt(log, j, k, e)
  }

  ghost predicate SweptAt<R(!new), V(!new)>(log: seq<Op<R, V>>, j: nat, k: Key<R>, e: Entry<V>)
    requires j < |log|
  {
    Probes(log[j], k) && !Live(e.deadline, Operators(log[..j]), Clock(log[j]).value)
  }

  /** `k` has no entry by the log: nothing gave it one that still stands. */
  ghost predicate NoOrigin<R(!new), V(!new)>(log: seq<Op<R, V>>, k: Key<R>) {
    forall i: nat, e: Entry<V> :: !Origin(log, i, k, e)
  }

  lemma OriginIsUnique<R(!new), V(!new)>(log: seq<Op<R, V>>, i: nat, e: Entry<V>, j: nat, f: Entry<V>, k: Key<R>)
    requires Origin(log, i, k, e) && Origin(log, j, k, f)
    ensures i == j && e == f
  {
    assert i < j ==> Untouched(log, j, k, e);
    assert j < i ==> Untouched(log, i, k, f);
  }

  /** An operation that leaves the entry standing keeps its origin. */
  lemma OriginStays<R(!new), V(!new)>(log: seq<Op<R, V>>, op: Op<R, V>, i: nat, k: Key<R>, e: Entry<V>)
    requires i < |log|
    ensures Origin(log + [op], i, k, e)
       <==> Origin(log, i, k, e) && Untouched(log + [op], |log|, k, e)
    ensures SweptSince(log + [op], i, k, e) <==> SweptSince(log, i, k, e) || SweptAt(log + [op], |log|, k, e)
  {
    var more := log + [op];
    forall j | 0 <= j < |log|
      ensures Untouched(more, j, k, e) == Untouched(log, j, k, e) && SweptAt(more, j, k, e) == SweptAt(log, j, k, e)
    {
      assert more[..j + 1] == log[..j + 1] && more[..j] == log[..j];
    }
    hide Untouched, SweptAt, Gives, Given;
    assert more[i] == log[i];
    if Origin(more, i, k, e) {
      assert Untouched(more, |log|, k, e);
    }
  }

  lemma NewOrigin<R(!new), V(!new)>(log: seq<Op<R, V>>, op: Op<R, V>, k: Key<R>)
    requires Gives(op, k)
    ensures Origin(log + [op], |log|, k, Given(op, k)) && !SweptSince(log + [op], |log|, k, Given(op, k))
  {
  }

  /** The cache holds exactly the entries that stand by the log and that no probe has found dead. */
  ghost predicate Agrees<R(!new), V(!new)>(log: seq<Op<R, V>>, entry: Option<Entry<V>>, k: Key<R>) {
    && (forall i: nat, e: Entry<V> ::
          (Origin(log, i, k, e) ==> entry == if SweptSince(log, i, k, e) then None else Some(e)))
    && (NoOrigin(log, k) ==> entry == None)
  }

  lemma AgreesAtFirst<R(!new), V(!new)>(k: Key<R>)
    ensures Agrees<R, V>([], None, k)
  {
  }

  lemma AgreesAfterGiven<R(!new), V(!new)>(log: seq<Op<R, V>>, op: Op<R, V>, k: Key<R>)
    requires Gives(op, k)
    ensures Agrees(log + [op], Some(Given(op, k)), k)
  {
    var more := log + [op];
    NewOrigin(log, op, k);
    hide Origin, SweptSince;
    forall i: nat, e: Entry<V> | Origin(more, i, k, e) ensures i == |log| && e == Given(op, k) {
      OriginIsUnique(more, i, e, |log|, Given(op, k), k);
    }
  }

  lemma AgreesAfterOther<R(!new), V(!new)>(log: seq<Op<R, V>>, op: Op<R, V>, entry: Option<Entry<V>>, k: Key<R>)
    requires !Gives(op, k) && Agrees(log, entry, k)
    ensures Agrees(log + [op], After(entry, Operators(log), op, k), k)
  {
    var more := log + [op];
    assert more[..|log|] == log && more[..|log| + 1] == more;
    forall i: nat, e: Entry<V>
      ensures Origin(more, i, k, e) <==> Origin(log, i, k, e) && Untouched(more, |log|, k, e)
      ensures i < |log| ==> (SweptSince(more, i, k, e) <==> SweptSince(log, i, k, e) || SweptAt(more, |log|, k, e))
    {
      if i < |log| {
        OriginStays(log, op, i, k, e);
      } else {
        NotItsOwn(log, op, i, k, e);
      }
    }
    OneOriginOrNone(log, k);
    OriginIsEarlier<R, V>(log, k);
    hide Origin, SweptSince, Gives, Removes, Live;
    forall i: nat, e: Entry<V> | Origin(more, i, k, e)
      ensures After(entry, Operators(log), op, k) == if SweptSince(more, i, k, e) then None else Some(e)
    {
      assert Origin(log, i, k, e);
    }
  }

  lemma NotItsOwn<R(!new), V(!new)>(log: seq<Op<R, V>>, op: Op<R, V>, i: nat, k: Key<R>, e: Entry<V>)
    requires !Gives(op, k) && i >= |log|
    ensures !Origin(log + [op], i, k, e) && !Origin(log, i, k, e)
  {
  }

  lemma OriginIsEarlier<R(!new), V(!new)>(log: seq<Op<R, V>>, k: Key<R>)
    ensures forall i: nat, e: Entry<V> :: Origin(log, i, k, e) ==> i < |log|
  {
  }

  lemma OneOriginOrNone<R(!new), V(!new)>(log: seq<Op<R, V>>, k: Key<R>)
    ensures NoOrigin(log, k) || exists i: nat, e: Entry<V> :: Origin(log, i, k, e)
  {
  }

  /** The cache after any run, key by key: the entry that stands by the log, unless a probe has found it dead. */
  lemma {:induction false} RunAgrees<R(!new), V(!new)>(log: seq<Op<R, V>>, k: Key<R>)
    ensures Run(log).operators == Operators(log)
    ensures Agrees(log, Get(Run(log), k), k)
  {
    hide Agrees, Apply, Get, After, OperatorsAfter;
    if log == [] {
      FreshByKey<R, V>(k);
      AgreesAtFirst<R, V>(k);
    } else {
      var init, op := log[..|log| - 1], log[|log| - 1];
      RunAgrees(init, k);
      StepByKey(Run(init), op, k);
      assert log == init + [op];
      AfterByKey(init, op, k);
    }
  }

  lemma FreshByKey<R, V>(k: Key<R>)
    ensures Get<R, V>(State(map[], map[], 0), k) == None
  {
  }

  lemma AfterByKey<R(!new), V(!new)>(log: seq<Op<R, V>>, op: Op<R, V>, k: Key<R>)
    requires Agrees(log, Get(Run(log), k), k)
    ensures Agrees(log + [op], After(Get(Run(log), k), Operators(log), op, k), k)
  {
    hide Agrees, Get, Run, Operators;
    if Gives(op, k) {
      AgreesAfterGiven(log, op, k);
    } else {
      AgreesAfterOther(log, op, Get(Run(log), k), k);
    }
  }
}
