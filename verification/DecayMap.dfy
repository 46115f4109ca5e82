/** The time-to-live cache of utils/decaymap.go, as an object and as interleaved atomic steps. */
module DecayMap {
  import opened Bytes

  datatype Entry<+V> = Entry(value: V, expiry: int)

  type Data<K, V> = map<K, Entry<V>>

  /** time.Now().After(expiry) */
  predicate Expired<V>(e: Entry<V>, now: int) {
    now > e.expiry
  }

  function Unexpired<K, V>(m: Data<K, V>, now: int): Data<K, V> {
    map k | k in m && !Expired(m[k], now) :: m[k]
  }

  function Stored<K, V>(m: Data<K, V>, key: K, value: V, ttl: int, now: int): Data<K, V> {
    m[key := Entry(value, now + ttl)]
  }

  /** The locked half of Get: a missing key has the zero expiry, and deleting it does nothing. */
  function Evicted<K, V>(m: Data<K, V>, key: K, expiry: int): Data<K, V> {
    if key in m && m[key].expiry == expiry then m - {key} else m
  }

  function Live<K, V>(m: Data<K, V>, key: K, now: int): Option<V> {
    if key in m && !Expired(m[key], now) then Some(m[key].value) else None
  }

  // ---- the object -------------------------------------------------------

  class DecayMap<K(==), V> {
    var data: Data<K, V>

    constructor ()
      ensures data == map[]
    {
      data := map[];
    }

    /** The first locked section of Get. */
    method Read(key: K) returns (entry: Option<Entry<V>>)
      ensures entry == if key in data then Some(data[key]) else None
    {
      entry := if key in data then Some(data[key]) else None;
    }

    /** The second locked section of Get: the entry may have been replaced since it was read. */
    method Evict(key: K, expiry: int)
      modifies this
      ensures data == Evicted(old(data), key, expiry)
    {
      if key in data && data[key].expiry == expiry {
        data := data - {key};
      }
    }

    /** Get with nothing interleaved: a hit is the live value, and only a dead entry goes. */
    method Get(key: K, now: int) returns (hit: Option<V>)
      modifies this
      ensures hit == Live(old(data), key, now)
      ensures Unexpired(data, now) == Unexpired(old(data), now)
      ensures key in data <==> hit.Some?
    {
      var entry := Read(key);
      if entry.None? {
        return None;
      }
      if Expired(entry.value, now) {
        Evict(key, entry.value.expiry);
        return None;
      }
      return Some(entry.value.value);
    }

    method Set(key: K, value: V, ttl: int, now: int)
      modifies this
      ensures data == Stored(old(data), key, value, ttl, now)
    {
      data := data[key := Entry(value, now + ttl)];
    }

    /** The deletion loop, in whatever order the map is walked. */
    method Decay(now: int)
      modifies this
      ensures data == Unexpired(old(data), now)
    {
      ghost var was := data;
      var pending := data.Keys;
      while pending != {}
        invariant pending <= was.Keys
        invariant data == map k | k in was && (k in pending || !Expired(was[k], now)) :: was[k]
        decreases pending
      {
        var key :| key in pending;
        pending := pending - {key};
        if Expired(data[key], now) {
          data := data - {key};
        }
      }
    }
  }

  // ---- interleaved steps ------------------------------------------------

  /** Where a thread stands inside Get. `live` remembers what a plain last-write map held for the
      key at the read step. */
  datatype Thread<K, V> =
    | Idle
    | HasRead(key: K, entry: Entry<V>, live: Option<V>)
    | MustEvict(key: K, expiry: int)

  /** What a finished Get answered. */
  datatype Answer<K, V> =
    | Hit(key: K, value: V, live: Option<V>)
    | MissAtRead(key: K, live: Option<V>)
    | MissAtCheck(key: K, entry: Entry<V>, now: int)

  datatype State<K, V> = State(
    clock: int,
    data: Data<K, V>,
    last: Data<K, V>,            // a plain map to which every Set writes and from which nothing goes
    threads: map<nat, Thread<K, V>>,
    answers: seq<Answer<K, V>>)

  datatype Step<K, V> =
    | Tick(dt: nat)
    | SetStep(key: K, value: V, ttl: int)
    | DecayStep
    | ReadStep(t: nat, key: K)
    | CheckStep(t: nat)
    | EvictStep(t: nat)

  function Initial<K, V>(clock: int): State<K, V> {
    State(clock, map[], map[], map[], [])
  }

  function ThreadOf<K, V>(s: State<K, V>, t: nat): Thread<K, V> {
    if t in s.threads then s.threads[t] else Idle
  }

  /** One atomic step; a step that its thread is not ready for changes nothing. */
  function Next<K(==), V>(s: State<K, V>, step: Step<K, V>): State<K, V> {
    match step
    case Tick(dt) => s.(clock := s.clock + dt)
    case SetStep(key, value, ttl) =>
      s.(data := Stored(s.data, key, value, ttl, s.clock), last := Stored(s.last, key, value, ttl, s.clock))
    case DecayStep => s.(data := Unexpired(s.data, s.clock))
    case ReadStep(t, key) =>
      if !ThreadOf(s, t).Idle? then s
      else if key !in s.data then s.(answers := s.answers + [MissAtRead(key, Live(s.last, key, s.clock))])
      else s.(threads := s.threads[t := HasRead(key, s.data[key], Live(s.last, key, s.clock))])
    case CheckStep(t) =>
      (match ThreadOf(s, t)
       case HasRead(key, entry, live) =>
         if Expired(entry, s.clock) then
           s.(threads := s.threads[t := MustEvict(key, entry.expiry)],
              answers := s.answers + [MissAtCheck(key, entry, s.clock)])
         else s.(threads := s.threads[t := Idle], answers := s.answers + [Hit(key, entry.value, live)])
       case _ => s)
    case EvictStep(t) =>
      (match ThreadOf(s, t)
       case MustEvict(key, expiry) =>
         s.(data := Evicted(s.data, key, expiry), threads := s.threads[t := Idle])
       case _ => s)
  }

  function Run<K(==), V>(s: State<K, V>, steps: seq<Step<K, V>>): State<K, V>
    decreases |steps|
  {
    if steps == [] then s else Run(Next(s, steps[0]), steps[1..])
  }

  ghost predicate GoodThread<K, V>(t: Thread<K, V>, clock: int) {
    match t
    case Idle => true
    case HasRead(_, entry, live) => !Expired(entry, clock) ==> live == Some(entry.value)
    case MustEvict(_, expiry) => clock > expiry
  }

  ghost predicate GoodAnswer<K, V>(a: Answer<K, V>) {
    match a
    case Hit(_, value, live) => live == Some(value)
    case MissAtRead(_, live) => live == None
    case MissAtCheck(_, entry, now) => Expired(entry, now)
  }

  /** What every step keeps. */
  ghost predicate Inv<K(!new), V>(s: State<K, V>) {
    && (forall k :: k in s.data ==> k in s.last && s.data[k] == s.last[k])
    && (forall k :: k in s.last && k !in s.data ==> Expired(s.last[k], s.clock))
    && (forall t :: t in s.threads ==> GoodThread(s.threads[t], s.clock))
    && (forall i :: 0 <= i < |s.answers| ==> GoodAnswer(s.answers[i]))
  }

  lemma NextKeepsInv<K(!new), V>(s: State<K, V>, step: Step<K, V>)
    requires Inv(s)
    ensures Inv(Next(s, step))
  {
    match step
    case Tick(dt) =>
      forall t | t in s.threads ensures GoodThread(s.threads[t], s.clock + dt) {
        assert GoodThread(s.threads[t], s.clock);
      }
    case SetStep(key, value, ttl) =>
    case DecayStep =>
    case ReadStep(t, key) =>
    case CheckStep(t) =>
      assert t in s.threads ==> GoodThread(s.threads[t], s.clock);
    case EvictStep(t) =>
      assert t in s.threads ==> GoodThread(s.threads[t], s.clock);
  }

  lemma {:induction false} RunKeepsInv<K(!new), V>(s: State<K, V>, steps: seq<Step<K, V>>)
    requires Inv(s)
    ensures Inv(Run(s, steps))
    decreases |steps|
  {
    if steps != [] {
      NextKeepsInv(s, steps[0]);
      RunKeepsInv(Next(s, steps[0]), steps[1..]);
    }
  }

  /** In every run, whatever is interleaved with whatever: the live part of the cache is the live
      part of the plain map, every hit is the value that was live when it was read, and a miss means
      that nothing was live then or that what was read has expired by the check. */
  lemma RefinesLastWriteMap<K(!new), V>(clock: int, steps: seq<Step<K, V>>)
    ensures var s := Run(Initial<K, V>(clock), steps);
            && Unexpired(s.data, s.clock) == Unexpired(s.last, s.clock)
            && forall i :: 0 <= i < |s.answers| ==> GoodAnswer(s.answers[i])
  {
    RunKeepsInv(Initial<K, V>(clock), steps);
  }

  lemma {:induction false} LastStays<K(!new), V>(s: State<K, V>, steps: seq<Step<K, V>>, key: K)
    requires key in s.last
    requires forall i :: 0 <= i < |steps| && steps[i].SetStep? ==> steps[i].key != key
    ensures key in Run(s, steps).last && Run(s, steps).last[key] == s.last[key]
    decreases |steps|
  {
    if steps != [] {
      assert steps[0].SetStep? ==> steps[0].key != key;
      LastStays(Next(s, steps[0]), steps[1..], key);
    }
  }

  /** A value lives exactly as long as it was set for: from any reachable state and through any
      interleaving that does not set its key again, it is there up to and including its last instant
      and gone after it. */
  lemma LivesItsTime<K(!new), V>(s: State<K, V>, key: K, value: V, ttl: int, steps: seq<Step<K, V>>)
    requires Inv(s) && forall i :: 0 <= i < |steps| && steps[i].SetStep? ==> steps[i].key != key
    ensures var n := Run(Next(s, SetStep(key, value, ttl)), steps);
            Live(n.data, key, n.clock) == if n.clock <= s.clock + ttl then Some(value) else None
  {
    var m := Next(s, SetStep(key, value, ttl));
    NextKeepsInv(s, SetStep(key, value, ttl));
    RunKeepsInv(m, steps);
    LastStays(m, steps, key);
    assert Run(m, steps).last[key] == Entry(value, s.clock + ttl);
  }

  /** No step of any run removes an entry that is unexpired, or replaces one except by a Set. */
  lemma OnlyExpiredEntriesGo<K(!new), V>(clock: int, steps: seq<Step<K, V>>, step: Step<K, V>, key: K)
    ensures var s := Run(Initial<K, V>(clock), steps);
            var n := Next(s, step);
            key in s.data && !Expired(s.data[key], s.clock) && !(step.SetStep? && step.key == key) ==>
              key in n.data && n.data[key] == s.data[key]
  {
    RunKeepsInv(Initial<K, V>(clock), steps);
    var s := Run(Initial<K, V>(clock), steps);
    match step
    case EvictStep(t) => assert t in s.threads ==> GoodThread(s.threads[t], s.clock);
    case _ =>
  }
}
