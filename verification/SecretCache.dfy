/** The unlock-time plaintext cache: its operations. Times are microseconds; the clock and the live unlock window are
    parameters of the operations that read them. */
module SecretCache {
  import opened Wrappers

  /** A deadline; None is session-held. */
  type Deadline = Option<int>

  datatype Secret<V> = Secret(value: V, deadline: Deadline)

  /** A ref or a placeholder id; the two never collide. */
  datatype Key<R> = Value(ref: R) | Marker(id: int)

  datatype State<R, V> = State(values: map<R, Secret<V>>, served: map<int, Deadline>, operators: nat)

  datatype Op<R, V> =
    | Store(secrets: map<R, V>, window: int, now: int)
    | Serve(ids: seq<int>, window: int, now: int)
    | Connect
    | Disconnect
    | Read(ref: R, now: int)
    | ServedAlive(id: int, now: int)
    | Flush(now: int)
    | Clear
    | Forget(refs: seq<R>, ids: seq<int>)

  datatype Answer<V> = Done | Plain(value: V) | Locked | Alive(alive: bool) | Flushed(count: nat)

  /** The deadline a fresh entry takes. */
  function Stamp(window: int, now: int): Deadline {
    if window != 0 then Some(now + window) else None
  }

  predicate Live(deadline: Deadline, operators: nat, now: int) {
    if deadline.None? then operators > 0 else deadline.value > now
  }

  function WithSecrets<R(==), V>(values: map<R, Secret<V>>, secrets: map<R, V>, stamp: Deadline): map<R, Secret<V>> {
    values + map r | r in secrets :: Secret(secrets[r], stamp)
  }

  function WithMarkers(served: map<int, Deadline>, ids: seq<int>, stamp: Deadline): map<int, Deadline> {
    served + map i | i in ids :: stamp
  }

  function ValueDeadlines<R(==), V>(values: map<R, Secret<V>>): map<R, Deadline> {
    map r | r in values :: values[r].deadline
  }

  /** The keys whose deadline passed: one rule for the values and the served markers alike. */
  function DeadKeys<K(==)>(deadlines: map<K, Deadline>, operators: nat, now: int): set<K> {
    set k | k in deadlines && !Live(deadlines[k], operators, now)
  }

  function ExpiredKeys<R(==), V>(s: State<R, V>, now: int): set<Key<R>> {
    (set r | r in DeadKeys(ValueDeadlines(s.values), s.operators, now) :: Value(r))
    + set i | i in DeadKeys(s.served, s.operators, now) :: Marker(i)
  }

  function WithoutValues<R(==), V>(values: map<R, Secret<V>>, keys: set<Key<R>>): map<R, Secret<V>> {
    map r | r in values && Value(r) !in keys :: values[r]
  }

  function WithoutMarkers<R(==)>(served: map<int, Deadline>, keys: set<Key<R>>): map<int, Deadline> {
    map i | i in served && Marker(i) !in keys :: served[i]
  }

  function DatedValues<R(==), V>(values: map<R, Secret<V>>): map<R, Secret<V>> {
    map r | r in values && values[r].deadline.Some? :: values[r]
  }

  function DatedMarkers(served: map<int, Deadline>): map<int, Deadline> {
    map i | i in served && served[i].Some? :: served[i]
  }

  function Members<T(==)>(items: seq<T>): set<T> {
    set x | x in items
  }

  /** What one operation does to the cache, and what it answers. */
  function Apply<R(==), V>(s: State<R, V>, op: Op<R, V>): (State<R, V>, Answer<V>) {
    match op
    case Store(secrets, window, now) => (s.(values := WithSecrets(s.values, secrets, Stamp(window, now))), Done)
    case Serve(ids, window, now) => (s.(served := WithMarkers(s.served, ids, Stamp(window, now))), Done)
    case Connect => (s.(operators := s.operators + 1), Done)
    case Disconnect =>
      var left := if s.operators > 0 then s.operators - 1 else 0;
      (if left == 0 then State(DatedValues(s.values), DatedMarkers(s.served), 0) else s.(operators := left), Done)
    case Read(ref, now) =>
      if ref !in s.values then (s, Locked)
      else if !Live(s.values[ref].deadline, s.operators, now) then (s.(values := s.values - {ref}), Locked)
      else (s, Plain(s.values[ref].value))
    case ServedAlive(id, now) =>
      if id !in s.served then (s, Alive(false))
      else if Live(s.served[id], s.operators, now) then (s, Alive(true))
      else (s.(served := s.served - {id}), Alive(false))
    case Flush(now) =>
      var dead := ExpiredKeys(s, now);
      (s.(values := WithoutValues(s.values, dead), served := WithoutMarkers(s.served, dead)), Flushed(|dead|))
    case Clear => (s.(values := map[], served := map[]), Done)
    case Forget(refs, ids) => (s.(values := s.values - Members(refs), served := s.served - Members(ids)), Done)
  }

  lemma StoreOne<R, V>(
    values: map<R, Secret<V>>, secrets: map<R, V>, todo: set<R>, ref: R, stamp: Deadline)
    requires ref in todo && todo <= secrets.Keys
    ensures WithSecrets(values, secrets - (todo - {ref}), stamp)
         == WithSecrets(values, secrets - todo, stamp)[ref := Secret(secrets[ref], stamp)]
  {
  }

  lemma MarkOne(served: map<int, Deadline>, ids: seq<int>, i: nat, stamp: Deadline)
    requires i < |ids|
    ensures WithMarkers(served, ids[..i + 1], stamp) == WithMarkers(served, ids[..i], stamp)[ids[i] := stamp]
  {
    assert ids[..i + 1] == ids[..i] + [ids[i]];
  }

  lemma DropNone<R, V>(values: map<R, Secret<V>>, served: map<int, Deadline>)
    ensures WithoutValues(values, {}) == values && WithoutMarkers<R>(served, {}) == served
  {
  }

  lemma DropOne<R, V>(values: map<R, Secret<V>>, served: map<int, Deadline>, keys: set<Key<R>>, key: Key<R>)
    ensures WithoutValues(values, keys + {key})
         == if key.Value? then WithoutValues(values, keys) - {key.ref} else WithoutValues(values, keys)
    ensures WithoutMarkers(served, keys + {key})
         == if key.Marker? then WithoutMarkers(served, keys) - {key.id} else WithoutMarkers(served, keys)
  {
  }

  class PlaintextCache<R(==), V> {
    var values: map<R, Secret<V>>
    var served: map<int, Deadline>
    var operators: nat

    ghost function Now(): State<R, V>
      reads this
    {
      State(values, served, operators)
    }

    constructor ()
      ensures Now() == State(map[], map[], 0)
    {
      values, served, operators := map[], map[], 0;
    }

    /** `store`: the unlock, the one event that resets the timer. */
    method AcceptSecrets(secrets: map<R, V>, window: int, now: int)
      modifies `values
      ensures Now() == Apply(old(Now()), Store(secrets, window, now)).0
    {
      var stamp := Stamp(window, now);
      var todo := secrets.Keys;
      while todo != {}
        invariant todo <= secrets.Keys
        invariant values == WithSecrets(old(values), secrets - todo, stamp)
        decreases |todo|
      {
        var ref :| ref in todo;
        StoreOne(old(values), secrets, todo, ref, stamp);
        values := values[ref := Secret(secrets[ref], stamp)];
        todo := todo - {ref};
      }
      assert secrets - todo == secrets;
    }

    /** `served`. */
    method RecordServed(ids: seq<int>, window: int, now: int)
      modifies `served
      ensures Now() == Apply(old(Now()), Serve(ids, window, now)).0
    {
      var stamp := Stamp(window, now);
      assert served == WithMarkers(served, ids[..0], stamp);
      for i := 0 to |ids|
        invariant served == WithMarkers(old(served), ids[..i], stamp)
      {
        hide WithMarkers;
        MarkOne(old(served), ids, i, stamp);
        served := served[ids[i] := stamp];
      }
      assert ids[..|ids|] == ids;
    }

    /** `operator_connected`. */
    method OperatorConnected()
      modifies `operators
      ensures Now() == Apply(old(Now()), Connect).0
    {
      operators := operators + 1;
    }

    /** `operator_disconnected`. */
    method OperatorDisconnected()
      modifies this
      ensures Now() == Apply(old(Now()), Disconnect).0
    {
      if operators > 0 {
        operators := operators - 1;
      }
      if operators == 0 {
        DropSessionEntries();
        assert values == DatedValues(old(values)) && served == DatedMarkers(old(served));
      }
    }

    /** `drop_session_entries`: exactly the session-held secrets and markers are taken out. */
    method DropSessionEntries()
      modifies `values, `served
      ensures values == old(values) - set ref | ref in old(values) && old(values)[ref].deadline.None?
      ensures served == old(served) - set id | id in old(served) && old(served)[id].None?
    {
      values := DatedValues(values);
      served := DatedMarkers(served);
    }

    /** `read`; None is the locked error. */
    method ReadSecret(ref: R, now: int) returns (plain: Option<V>)
      modifies `values
      ensures var (s, answer) := Apply(old(Now()), Read(ref, now));
        Now() == s && answer == if plain.Some? then Plain(plain.value) else Locked
    {
      if ref !in values {
        return None;
      }
      var entry := values[ref];
      if !Live(entry.deadline, operators, now) {
        values := values - {ref};
        return None;
      }
      plain := Some(entry.value);
    }

    /** `knows`. */
    method Knows(ref: R, now: int) returns (ready: bool)
      modifies `values
      ensures var (s, answer) := Apply(old(Now()), Read(ref, now));
        Now() == s && (ready <==> answer.Plain?)
    {
      var plain := ReadSecret(ref, now);
      ready := plain.Some?;
    }

    /** `served_alive`. */
    method IsServed(id: int, now: int) returns (alive: bool)
      modifies `served
      ensures (Now(), Alive(alive)) == Apply(old(Now()), ServedAlive(id, now))
    {
      if id !in served {
        return false;
      }
      if Live(served[id], operators, now) {
        return true;
      }
      served := served - {id};
      alive := false;
    }

    /** `flush_expired`. */
    method FlushExpired(now: int) returns (count: nat)
      modifies `values, `served
      ensures (Now(), Flushed(count)) == Apply(old(Now()), Flush(now))
    {
      hide ExpiredKeys, WithoutValues, WithoutMarkers;
      var dead := ExpiredKeys(State(values, served, operators), now);
      var todo := dead;
      DropNone<R, V>(values, served);
      assert dead - todo == {};
      while todo != {}
        invariant todo <= dead
        invariant values == WithoutValues(old(values), dead - todo)
        invariant served == WithoutMarkers(old(served), dead - todo)
        decreases |todo|
      {
        var key :| key in todo;
        DropOne<R, V>(old(values), old(served), dead - todo, key);
        assert dead - (todo - {key}) == (dead - todo) + {key};
        match key {
          case Value(ref) => values := values - {ref};
          case Marker(id) => served := served - {id};
        }
        todo := todo - {key};
      }
      assert dead - todo == dead;
      count := |dead|;
    }

    /** `clear`. */
    method DropEverything()
      modifies `values, `served
      ensures Now() == Apply(old(Now()), Clear).0
    {
      values := map[];
      served := map[];
    }

    /** `forget`. */
    method DropNamed(refs: seq<R>, ids: seq<int>)
      modifies `values, `served
      ensures Now() == Apply(old(Now()), Forget(refs, ids)).0
    {
      for i := 0 to |refs|
        invariant values == old(values) - Members(refs[..i]) && served == old(served)
      {
        values := values - {refs[i]};
        assert Members(refs[..i + 1]) == Members(refs[..i]) + {refs[i]};
      }
      assert refs[..|refs|] == refs;
      for i := 0 to |ids|
        invariant values == old(values) - Members(refs) && served == old(served) - Members(ids[..i])
      {
        served := served - {ids[i]};
        assert Members(ids[..i + 1]) == Members(ids[..i]) + {ids[i]};
      }
      assert ids[..|ids|] == ids;
    }
  }
}
