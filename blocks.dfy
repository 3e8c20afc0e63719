/** The two register blocks of store.py. Each keeps a local cache of register
    values and their timestamps, refreshes it from the store on every read
    and writes through to the store on every write. The rows a read is
    answered with are a parameter of the read; the calls a block makes on the
    store are recorded in its ghost `calls` log. */
module Blocks {
  import opened Base
  import opened Lists
  import opened Bridge

  /** The `values` argument of `setValues`: a single int, a list of ints, or
      (for a sparse block) a dict from address to value, given as its
      key/value pairs in iteration order. */
  datatype Payload = Scalar(value: int) | Many(items: seq<int>) | Mapping(entries: seq<(int, int)>)

  /** `if not isinstance(values, list): values = [values]` */
  function AsList(p: Payload): (items: seq<int>)
    requires !p.Mapping?
    ensures p.Scalar? ==> items == [p.value]
    ensures p.Many? ==> items == p.items
  {
    if p.Scalar? then [p.value] else p.items
  }

  /** Blocks read with the default `fill=0`. */
  const BlockFill: Fill := FillWith(0)

  // ---------- the sequential block: specification ----------

  /** The two caches of a sequential block. */
  datatype Cache = Cache(values: seq<int>, timestamps: seq<Timestamp>)

  /** The outcome of the cache merge: the caches as they were left, and the
      exception that stopped the merge, if any. */
  datatype Merged = Merged(cache: Cache, error: Option<Exception>)

  /** The merge loop of sequential `getValues`, from its `j`-th returned value
      on: the value goes to absolute index `address + j` of the value cache,
      and the timestamp at that same absolute index of the returned list goes
      to the same index of the timestamp cache. The value is stored before
      the timestamps are looked up. */
  function MergeFrom(c: Cache, address: nat, vs: seq<int>, ts: seq<Timestamp>, j: nat): (m: Merged)
    ensures |m.cache.values| == |c.values| && |m.cache.timestamps| == |c.timestamps|
    decreases |vs| - j
  {
    if |vs| <= j then Merged(c, None)
    else
      var i := address + j;
      if |c.values| <= i then Merged(c, Some(IndexError))
      else
        var values := c.values[i := vs[j]];
        if |ts| <= i || |c.timestamps| <= i then Merged(Cache(values, c.timestamps), Some(IndexError))
        else MergeFrom(Cache(values, c.timestamps[i := ts[i]]), address, vs, ts, j + 1)
  }

  /** The caches and the result of a sequential `getValues`. */
  datatype Got<T> = Got(cache: T, result: Result<seq<int>>)

  /** Sequential `getValues` on a block based at `base`, once the store
      read has answered `read`: on success its values are merged into the
      caches and the cache slice from `address - base` is returned, with the
      count clipped to the number of values returned. */
  function Absorb(c: Cache, base: int, address: nat, read: Result<Fetched>): Got<Cache>
    requires read.Ok? ==> read.value.Listed?
  {
    if read.Err? then Got(c, Err(read.error))
    else
      var vs, ts := read.value.items, read.value.stamps;
      var m := MergeFrom(c, address, vs, ts, 0);
      if m.error.Some? then Got(m.cache, Err(m.error.value))
      else
        var start := address - base;
        Got(m.cache, Ok(Slice(m.cache.values, start, start + |vs|)))
  }

  /** Sequential `getValues(address, count)` given the rows the store returns. */
  function SequentialGet(c: Cache, base: int, o: Origin, address: nat, count: nat, returned: seq<Record>): Got<Cache>
    requires !o.sparse
  {
    Absorb(c, base, address, ReadSpec(o, address, count, BlockFill, returned))
  }

  /** The writes of sequential `setValues`, from loop index `i` on: index `i`
      of the new values is written to register `address + i`, for `i` up to
      but excluding `len(values) - 1`. */
  function WritesFrom(o: Origin, t: RegType, address: nat, items: seq<int>, i: nat): seq<StoreCall>
    decreases |items| - i
  {
    if |items| - 1 <= i then []
    else [WriteCall(o, t, address + i, items[i])] + WritesFrom(o, t, address, items, i + 1)
  }

  // ---------- the sequential block: properties ----------

  /** The merge stops with `IndexError` exactly when some absolute index it
      reaches lies past the value cache, the returned timestamps or the
      timestamp cache; otherwise every index from `address + j` on now holds
      the returned value, and timestamp, of that index, and nothing else
      changed. */
  lemma {:induction false} MergeFromOutcome(c: Cache, address: nat, vs: seq<int>, ts: seq<Timestamp>, j: nat)
    requires j <= |vs|
    ensures var m := MergeFrom(c, address, vs, ts, j);
      && (m.error.None? <==>
           (j == |vs| || (address + |vs| <= |c.values| && address + |vs| <= |ts| && address + |vs| <= |c.timestamps|)))
      && (m.error.Some? ==> m.error.value == IndexError)
      && (m.error.None? ==>
           && (forall k :: 0 <= k < |c.values| ==>
                 m.cache.values[k] == if address + j <= k < address + |vs| then vs[k - address] else c.values[k])
           && (forall k :: 0 <= k < |c.timestamps| ==>
                 m.cache.timestamps[k] == if address + j <= k < address + |vs| then ts[k] else c.timestamps[k]))
    decreases |vs| - j
  {
    if j < |vs| {
      var i := address + j;
      if i < |c.values| && i < |ts| && i < |c.timestamps| {
        var next := Cache(c.values[i := vs[j]], c.timestamps[i := ts[i]]);
        MergeFromOutcome(next, address, vs, ts, j + 1);
      }
    }
  }

  /** Merging `n` returned values succeeds exactly when there are none, or
      when the request starts at absolute address 0 and both caches hold at
      least `n` entries; the caches then start with the returned values and
      timestamps and keep the rest. */
  lemma AbsorbListed(c: Cache, base: int, address: nat, vs: seq<int>, ts: seq<Timestamp>)
    requires |vs| == |ts|
    ensures var g := Absorb(c, base, address, Ok(Listed(vs, ts)));
      && (g.result.Ok? <==> (|vs| == 0 || (address == 0 && |vs| <= |c.values| && |vs| <= |c.timestamps|)))
      && (g.result.Err? ==> g.result.error == IndexError)
      && (g.result.Ok? ==>
           && |g.cache.values| == |c.values| && |g.cache.timestamps| == |c.timestamps|
           && (forall k :: 0 <= k < |c.values| ==> g.cache.values[k] == if k < |vs| then vs[k] else c.values[k])
           && (forall k :: 0 <= k < |c.timestamps| ==> g.cache.timestamps[k] == if k < |ts| then ts[k] else c.timestamps[k])
           && g.result.value == Slice(g.cache.values, address - base, address - base + |vs|))
  {
    MergeFromOutcome(c, address, vs, ts, 0);
  }

  /** The merge of a sequential read, given what the read makes of the
      sorted rows (`ListedRead`). */
  lemma AbsorbRows(c: Cache, base: int, address: nat, count: nat, rows: seq<Record>, read: Result<Fetched>)
    requires read.Ok? <==> Aligned(rows, address, address + count)
    requires read.Ok? ==>
      read == Ok(Listed(Datas(Slice(rows, address, address + count)), Stamps(Slice(rows, address, address + count))))
    ensures var g := Absorb(c, base, address, read);
      && (g.result.Ok? <==>
           && Aligned(rows, address, address + count)
           && (count == 0 || (address == 0 && count <= |c.values| && count <= |c.timestamps|)))
      && (g.result.Ok? ==>
           && |g.cache.values| == |c.values| && |g.cache.timestamps| == |c.timestamps|
           && (forall k :: 0 <= k < |c.values| ==>
                 g.cache.values[k] == if k < count then rows[k].data else c.values[k])
           && (forall k :: 0 <= k < |c.timestamps| ==>
                 g.cache.timestamps[k] == if k < count then rows[k].timestamp else c.timestamps[k])
           && g.result.value == Slice(g.cache.values, address - base, address - base + count))
  {
    if read.Ok? {
      var window := Slice(rows, address, address + count);
      AbsorbListed(c, base, address, Datas(window), Stamps(window));
      if count > 0 {
        assert window == rows[address..address + count];
      } else {
        assert window == [];
      }
    }
  }

  /** A sequential `getValues` fails unless the rows are aligned on the
      requested range and, for a non-empty read, the range starts at
      absolute address 0 and fits both caches: the merge uses the request
      address as an index into the cache and into the returned timestamps.
      When it succeeds the cache starts with the data and timestamps of the
      sorted rows, keeps the rest unchanged, and the result is the cache
      slice from `address - base` with `count` elements, Python-clamped. */
  lemma SequentialGetOutcome(c: Cache, base: int, o: Origin, address: nat, count: nat, returned: seq<Record>)
    requires !o.sparse
    ensures var g := SequentialGet(c, base, o, address, count, returned);
      && var rows := SortByAddress(returned);
      && (g.result.Ok? <==>
           && Aligned(rows, address, address + count)
           && (count == 0 || (address == 0 && count <= |c.values| && count <= |c.timestamps|)))
      && (g.result.Ok? ==>
           && |g.cache.values| == |c.values| && |g.cache.timestamps| == |c.timestamps|
           && (forall k :: 0 <= k < |c.values| ==>
                 g.cache.values[k] == if k < count then rows[k].data else c.values[k])
           && (forall k :: 0 <= k < |c.timestamps| ==>
                 g.cache.timestamps[k] == if k < count then rows[k].timestamp else c.timestamps[k])
           && g.result.value == Slice(g.cache.values, address - base, address - base + count))
  {
    SequentialRead(o, address, count, BlockFill, returned);
    AbsorbRows(c, base, address, count, SortByAddress(returned), ReadSpec(o, address, count, BlockFill, returned));
  }

  /** A sequential read of one or more registers that does not start at
      absolute address 0 always raises. */
  lemma SequentialGetOffZero(c: Cache, base: int, o: Origin, address: nat, count: nat, returned: seq<Record>)
    requires !o.sparse && count > 0 && address > 0
    ensures SequentialGet(c, base, o, address, count, returned).result.Err?
  {
    SequentialGetOutcome(c, base, o, address, count, returned);
  }

  /** A block built by the constructor has one timestamp fewer than values, so
      a read that reaches the last register raises. */
  lemma SequentialGetLastRegister(c: Cache, base: int, o: Origin, count: nat, returned: seq<Record>)
    requires !o.sparse && |c.values| > 0 && |c.timestamps| == |c.values| - 1 && count == |c.values|
    ensures SequentialGet(c, base, o, 0, count, returned).result.Err?
  {
    SequentialGetOutcome(c, base, o, 0, count, returned);
  }

  /** A failed read leaves the caches as they were before the first value it
      could not store; in particular a read the store cannot answer changes
      nothing. */
  lemma SequentialGetReadFails(c: Cache, base: int, o: Origin, address: nat, count: nat, returned: seq<Record>)
    requires !o.sparse
    requires !Aligned(SortByAddress(returned), address, address + count)
    ensures var g := SequentialGet(c, base, o, address, count, returned);
      && g.cache == c && g.result.Err? && g.result.error in {IndexError, KeyError}
      && (address + count <= |SortByAddress(returned)| ==> g.result.error == KeyError)
  {
    SequentialRead(o, address, count, BlockFill, returned);
  }

  /** The writes of sequential `setValues` follow the loop: the `k`-th write
      sends the value at index `i + k` to register `address + i + k`. */
  lemma {:induction false} WritesFromShape(o: Origin, t: RegType, address: nat, items: seq<int>, i: nat)
    ensures |WritesFrom(o, t, address, items, i)| == if |items| - 1 <= i then 0 else |items| - 1 - i
    ensures forall k :: 0 <= k < |WritesFrom(o, t, address, items, i)| ==>
      WritesFrom(o, t, address, items, i)[k] == WriteCall(o, t, address + i + k, items[i + k])
    decreases |items| - i
  {
    if i < |items| - 1 {
      WritesFromShape(o, t, address, items, i + 1);
      var w := WritesFrom(o, t, address, items, i);
      var rest := WritesFrom(o, t, address, items, i + 1);
      assert w == [WriteCall(o, t, address + i, items[i])] + rest;
      forall k | 0 < k < |w|
        ensures w[k] == WriteCall(o, t, address + i + k, items[i + k])
      {
        assert w[k] == rest[k - 1];
      }
    }
  }

  /** Two writes go to the same register exactly when they name the same address. */
  lemma WriteFilterInjective(o: Origin, t: RegType, a: int, b: int)
    ensures WriteFilter(o, t, a) == WriteFilter(o, t, b) <==> a == b
  {
    if WriteFilter(o, t, a) == WriteFilter(o, t, b) {
      assert WriteFilter(o, t, a)[3] == WriteFilter(o, t, b)[3];
    }
  }

  /** What sequential `setValues` sends to the store: `len(values) - 1 - address`
      writes (none at all for a single value), to registers `2 * address`
      onwards. The last register of the write, `address + len(values) - 1`,
      is never written, and neither is the first one unless `address` is 0. */
  lemma SequentialWrites(o: Origin, t: RegType, address: nat, items: seq<int>)
    requires |items| > 0
    ensures var w := WritesFrom(o, t, address, items, address);
      && (|items| <= address + 1 ==> w == [])
      && (forall k :: 0 <= k < |w| ==> address + k < |items| && w[k] == WriteCall(o, t, 2 * address + k, items[address + k]))
      && (forall k :: 0 <= k < |w| ==> w[k].query != WriteFilter(o, t, address + |items| - 1))
      && (address > 0 ==> forall k :: 0 <= k < |w| ==> w[k].query != WriteFilter(o, t, address))
  {
    var w := WritesFrom(o, t, address, items, address);
    WritesFromShape(o, t, address, items, address);
    forall k | 0 <= k < |w|
      ensures w[k].query != WriteFilter(o, t, address + |items| - 1)
      ensures address > 0 ==> w[k].query != WriteFilter(o, t, address)
    {
      WriteFilterInjective(o, t, 2 * address + k, address + |items| - 1);
      WriteFilterInjective(o, t, 2 * address + k, address);
    }
  }

  // ---------- the sequential block ----------

  /** `CbModbusSequentialDataBlock`: registers `base .. base + len(values) - 1`
      of one type, owned by a non-sparse slave context. */
  class SequentialBlock {
    const origin: Origin
    const registerType: RegType
    const base: int
    var values: seq<int>
    var timestamps: seq<Timestamp>
    ghost var calls: seq<StoreCall>

    /** The block with its initial values and `len(values) - 1` empty
        timestamps. */
    constructor (origin: Origin, registerType: RegType, base: int, values: seq<int>)
      ensures this.origin == origin && this.registerType == registerType && this.base == base
      ensures this.values == values
      ensures timestamps == Repeat(None, |values| - 1)
      ensures calls == []
    {
      var ts: seq<Timestamp> := [];
      var i := 0;
      while i < |values| - 1
        invariant 0 <= i <= if |values| > 0 then |values| - 1 else 0
        invariant ts == Repeat(None, i)
      {
        ts := ts + [None];
        i := i + 1;
      }
      this.origin := origin;
      this.registerType := registerType;
      this.base := base;
      this.values := values;
      timestamps := ts;
      calls := [];
    }

    /** The constructor's register type check: a block is built only for one
        of `hr`, `ir`, `di`, `co`, and `ParameterException` is raised otherwise. */
    static method Create(origin: Origin, registerType: string, base: int, values: seq<int>)
      returns (r: Result<SequentialBlock>)
      ensures r.Err? <==> CheckRegisterType(registerType).Err?
      ensures r.Err? ==> r.error == ParameterException
      ensures r.Ok? ==> fresh(r.value) && TypeName(r.value.registerType) == registerType
      ensures r.Ok? ==> r.value.origin == origin && r.value.base == base && r.value.values == values
      ensures r.Ok? ==> r.value.timestamps == Repeat(None, |values| - 1) && r.value.calls == []
    {
      var t := CheckRegisterType(registerType);
      if t.Err? {
        return Err(t.error);
      }
      var b := new SequentialBlock(origin, t.value, base, values);
      return Ok(b);
    }

    /** `getValues(address, count)`: reads the rows from the store, stores the
        returned values and timestamps in the caches and returns the cached
        slice. */
    method GetValues(address: nat, count: nat, returned: seq<Record>) returns (r: Result<seq<int>>)
      requires !origin.sparse
      modifies this
      ensures calls == old(calls) + [GetItems(ReadFilter(origin, registerType, address, count))]
      ensures var g := Absorb(Cache(old(values), old(timestamps)), base, address, ReadSpec(origin, address, count, BlockFill, returned));
        r == g.result && values == g.cache.values && timestamps == g.cache.timestamps
    {
      var query, read := ReadCollectionData(origin, registerType, address, count, BlockFill, returned);
      calls := calls + [GetItems(query)];
      if read.Err? {
        return Err(read.error);
      }
      var vs, ts := read.value.items, read.value.stamps;
      var error := Merge(address, vs, ts);
      if error.Some? {
        return Err(error.value);
      }
      var start := address - base;
      r := Ok(Slice(values, start, start + |vs|));
    }

    /** The loop of `getValues` that stores the returned values and
        timestamps at their absolute indices, stopping at the first index
        that is out of range. */
    method Merge(address: nat, vs: seq<int>, ts: seq<Timestamp>) returns (error: Option<Exception>)
      modifies this`values, this`timestamps
      ensures var m := MergeFrom(Cache(old(values), old(timestamps)), address, vs, ts, 0);
        error == m.error && values == m.cache.values && timestamps == m.cache.timestamps
    {
      ghost var c0 := Cache(values, timestamps);
      var j := 0;
      while j < |vs|
        invariant 0 <= j <= |vs|
        invariant MergeFrom(c0, address, vs, ts, 0) == MergeFrom(Cache(values, timestamps), address, vs, ts, j)
      {
        var i := address + j;
        if |values| <= i {
          return Some(IndexError);
        }
        values := values[i := vs[j]];
        if |ts| <= i || |timestamps| <= i {
          return Some(IndexError);
        }
        timestamps := timestamps[i := ts[i]];
        j := j + 1;
      }
      return None;
    }

    /** `setValues(address, values)`: assigns the cache slice from
        `address - base` and issues the writes of `WritesFrom`. */
    method SetValues(address: nat, payload: Payload)
      requires !payload.Mapping?
      modifies this
      ensures values == AssignSlice(old(values), address - base, address - base + |AsList(payload)|, AsList(payload))
      ensures timestamps == old(timestamps)
      ensures calls == old(calls) + WritesFrom(origin, registerType, address, AsList(payload), address)
    {
      var items := AsList(payload);
      var start := address - base;
      values := AssignSlice(values, start, start + |items|, items);
      var i := address;
      while i < |items| - 1
        invariant address <= i
        invariant values == AssignSlice(old(values), start, start + |items|, items)
        invariant timestamps == old(timestamps)
        invariant old(calls) + WritesFrom(origin, registerType, address, items, address)
               == calls + WritesFrom(origin, registerType, address, items, i)
        decreases |items| - i
      {
        calls := calls + [WriteCall(origin, registerType, address + i, items[i])];
        i := i + 1;
      }
    }

    /** `get_timestamps(address, count)`: the cached timestamps of the range,
        without asking the store. */
    function GetTimestamps(address: int, count: nat): (r: seq<Timestamp>)
      reads this
      ensures |r| <= count && |r| <= |timestamps|
      ensures base <= address && address - base + count <= |timestamps| ==>
        r == timestamps[address - base .. address - base + count]
    {
      if base <= address then SliceInRange(timestamps, address - base, address - base + count); Slice(timestamps, address - base, address - base + count)
      else Slice(timestamps, address - base, address - base + count)
    }

    /** The range check of the pymodbus sequential block. */
    predicate Validate(address: int, count: int)
      reads this
    {
      base <= address && address + count <= base + |values|
    }
  }

  // ---------- the sparse block: specification ----------

  /** The cache after a sparse `getValues`: every key the block already has
      and the store returned takes the returned entry. */
  function Refresh<V>(cache: map<Option<int>, V>, keys: set<Option<int>>, fetched: map<int, V>): (r: map<Option<int>, V>)
    ensures forall k :: k in r <==> k in cache || (k in keys && k.Some? && k.value in fetched)
    ensures forall k :: k in r ==>
      r[k] == if k in keys && k.Some? && k.value in fetched then fetched[k.value] else cache[k]
  {
    cache + map k | k in keys && k.Some? && k.value in fetched :: fetched[k.value]
  }

  /** Every register of `[address, address + count)` has an entry. */
  predicate Covers<V>(cache: map<Option<int>, V>, address: int, count: nat) {
    forall a :: address <= a < address + count ==> Some(a) in cache
  }

  /** `r` is `cache` with the keys of `keys` whose address is in `done`
      refreshed from `fetched`: the loop invariant of the sparse merge. */
  ghost predicate Refreshed<V>(cache: map<Option<int>, V>, keys: set<Option<int>>, fetched: map<int, V>, done: set<int>, r: map<Option<int>, V>) {
    && done <= fetched.Keys
    && (forall k :: k in r <==> k in cache || (k in keys && k.Some? && k.value in done))
    && (forall k :: k in r ==> r[k] == if k in keys && k.Some? && k.value in done then fetched[k.value] else cache[k])
  }

  lemma RefreshedAll<V>(cache: map<Option<int>, V>, keys: set<Option<int>>, fetched: map<int, V>, done: set<int>, r: map<Option<int>, V>)
    requires Refreshed(cache, keys, fetched, done, r) && done == fetched.Keys
    ensures r == Refresh(cache, keys, fetched)
  {
  }

  /** `[cache[i] for i in range(address, address + count)]`: `KeyError` when
      a register of the range has no entry. */
  function CachedRange<V>(cache: map<Option<int>, V>, address: int, count: nat): (r: Result<seq<V>>)
    ensures r.Ok? <==> Covers(cache, address, count)
    ensures r.Err? ==> r.error == KeyError
    ensures r.Ok? ==> |r.value| == count && forall k :: 0 <= k < count ==> r.value[k] == cache[Some(address + k)]
  {
    if Covers(cache, address, count) then
      Ok(seq(count, k requires 0 <= k < count => cache[Some(address + k)]))
    else Err(KeyError)
  }

  /** The address/value pairs a sparse `setValues` walks: a dict's items, or
      each list position `idx` at `address + idx`. */
  function Pairs(address: int, p: Payload): (pairs: seq<(int, int)>)
    ensures p.Mapping? ==> pairs == p.entries
    ensures !p.Mapping? ==> |pairs| == |AsList(p)|
    ensures !p.Mapping? ==> forall k :: 0 <= k < |pairs| ==> pairs[k] == (address + k, AsList(p)[k])
  {
    if p.Mapping? then p.entries
    else seq(|AsList(p)|, k requires 0 <= k < |AsList(p)| => (address + k, AsList(p)[k]))
  }

  /** The value cache after the pairs have been stored in order. */
  function Store(cache: map<Option<int>, int>, pairs: seq<(int, int)>): map<Option<int>, int> {
    if |pairs| == 0 then cache
    else Store(cache, pairs[..|pairs| - 1])[Some(pairs[|pairs| - 1].0) := pairs[|pairs| - 1].1]
  }

  /** One write per pair, in order. */
  function PairWrites(o: Origin, t: RegType, pairs: seq<(int, int)>): (w: seq<StoreCall>)
    ensures |w| == |pairs|
    ensures forall k :: 0 <= k < |pairs| ==> w[k] == WriteCall(o, t, pairs[k].0, pairs[k].1)
  {
    seq(|pairs|, k requires 0 <= k < |pairs| => WriteCall(o, t, pairs[k].0, pairs[k].1))
  }

  // ---------- the sparse block: properties ----------

  /** A sparse `getValues` never adds a register to the block. */
  lemma RefreshKeepsKeys<V>(cache: map<Option<int>, V>, fetched: map<int, V>)
    ensures Refresh(cache, cache.Keys, fetched).Keys == cache.Keys
  {
  }

  /** After storing the pairs the cache holds every key it held and every
      paired address, and each paired address holds the value of its last pair. */
  lemma {:induction false} StoreKeys(cache: map<Option<int>, int>, pairs: seq<(int, int)>)
    ensures Store(cache, pairs).Keys == cache.Keys + set k | 0 <= k < |pairs| :: Some(pairs[k].0)
  {
    if |pairs| > 0 {
      var init := pairs[..|pairs| - 1];
      StoreKeys(cache, init);
      assert forall k :: 0 <= k < |init| ==> init[k] == pairs[k];
      assert (set k | 0 <= k < |pairs| :: Some(pairs[k].0))
          == (set k | 0 <= k < |init| :: Some(init[k].0)) + {Some(pairs[|pairs| - 1].0)};
    }
  }

  lemma {:induction false} StoreLastWins(cache: map<Option<int>, int>, pairs: seq<(int, int)>, k: nat)
    requires k < |pairs|
    requires forall j :: k < j < |pairs| ==> pairs[j].0 != pairs[k].0
    ensures Some(pairs[k].0) in Store(cache, pairs) && Store(cache, pairs)[Some(pairs[k].0)] == pairs[k].1
  {
    var init := pairs[..|pairs| - 1];
    if k < |pairs| - 1 {
      assert init[k] == pairs[k];
      assert forall j :: k < j < |init| ==> init[j] == pairs[j];
      StoreLastWins(cache, init, k);
    }
  }

  /** Registers no pair names keep their value. */
  lemma {:induction false} StoreElsewhere(cache: map<Option<int>, int>, pairs: seq<(int, int)>, key: Option<int>)
    requires key in cache
    requires forall j :: 0 <= j < |pairs| ==> Some(pairs[j].0) != key
    ensures key in Store(cache, pairs) && Store(cache, pairs)[key] == cache[key]
  {
    if |pairs| > 0 {
      var init := pairs[..|pairs| - 1];
      assert forall j :: 0 <= j < |init| ==> init[j] == pairs[j];
      StoreElsewhere(cache, init, key);
    }
  }

  /** A list (or scalar) write sends exactly one write per value, the `k`-th
      to register `address + k`, and each of those registers then holds the
      value that was sent for it. */
  lemma SparseListWrite(o: Origin, t: RegType, cache: map<Option<int>, int>, address: int, p: Payload, k: nat)
    requires !p.Mapping? && k < |AsList(p)|
    ensures |PairWrites(o, t, Pairs(address, p))| == |AsList(p)|
    ensures PairWrites(o, t, Pairs(address, p))[k] == WriteCall(o, t, address + k, AsList(p)[k])
    ensures Some(address + k) in Store(cache, Pairs(address, p)) && Store(cache, Pairs(address, p))[Some(address + k)] == AsList(p)[k]
  {
    StoreLastWins(cache, Pairs(address, p), k);
  }

  /** A dict write sends exactly one write per item, and the register of the
      last item for an address holds that item's value. */
  lemma SparseMappingWrite(o: Origin, t: RegType, cache: map<Option<int>, int>, entries: seq<(int, int)>, k: nat)
    requires k < |entries|
    requires forall j :: k < j < |entries| ==> entries[j].0 != entries[k].0
    ensures PairWrites(o, t, entries)[k] == WriteCall(o, t, entries[k].0, entries[k].1)
    ensures Some(entries[k].0) in Store(cache, entries) && Store(cache, entries)[Some(entries[k].0)] == entries[k].1
  {
    StoreLastWins(cache, entries, k);
  }

  /** After a list (or single int) write every register it names holds the
      written value. */
  lemma StoreListHolds(cache: map<Option<int>, int>, address: int, p: Payload)
    requires !p.Mapping?
    ensures var w := Store(cache, Pairs(address, p));
      forall a :: address <= a < address + |AsList(p)| ==> Some(a) in w && w[Some(a)] == AsList(p)[a - address]
  {
    forall a | address <= a < address + |AsList(p)|
      ensures Some(a) in Store(cache, Pairs(address, p))
      ensures Store(cache, Pairs(address, p))[Some(a)] == AsList(p)[a - address]
    {
      StoreLastWins(cache, Pairs(address, p), a - address);
    }
  }

  /** Each value of the sparse branch is the data of a row with that address. */
  lemma {:induction false} KeyedValuesFrom(rows: seq<Record>, a: int)
    requires a in KeyedValues(rows)
    ensures exists j :: 0 <= j < |rows| && rows[j].address == a && rows[j].data == KeyedValues(rows)[a]
  {
    var last := |rows| - 1;
    if rows[last].address != a {
      var init := rows[..last];
      KeyedValuesFrom(init, a);
      var j :| 0 <= j < |init| && init[j].address == a && init[j].data == KeyedValues(init)[a];
      assert rows[j] == init[j];
    }
  }

  /** Rows for the registers `address + k` that all carry `items[k]`. */
  predicate Echoes(rows: seq<Record>, address: int, items: seq<int>) {
    forall i :: 0 <= i < |rows| && address <= rows[i].address < address + |items| ==>
      rows[i].data == items[rows[i].address - address]
  }

  /** A permutation of the rows carries what they carry. */
  lemma EchoesPermuted(returned: seq<Record>, rows: seq<Record>, address: int, items: seq<int>)
    requires multiset(rows) == multiset(returned)
    requires Echoes(returned, address, items)
    ensures Echoes(rows, address, items)
  {
    forall j | 0 <= j < |rows| && address <= rows[j].address < address + |items|
      ensures rows[j].data == items[rows[j].address - address]
    {
      assert rows[j] in multiset(returned);
      var i :| 0 <= i < |returned| && returned[i] == rows[j];
    }
  }

  /** Rows that carry `items[k]` for each register `address + k` they name
      key those values. */
  lemma KeyedEcho(rows: seq<Record>, address: int, items: seq<int>)
    requires Echoes(rows, address, items)
    ensures forall a :: address <= a < address + |items| && a in KeyedValues(rows) ==>
      KeyedValues(rows)[a] == items[a - address]
  {
    forall a | address <= a < address + |items| && a in KeyedValues(rows)
      ensures KeyedValues(rows)[a] == items[a - address]
    {
      KeyedValuesFrom(rows, a);
    }
  }

  /** A range the cache holds at `items`, refreshed from a store that holds
      the same values for every register it returned, reads back as `items`. */
  lemma RefreshedRange(w: map<Option<int>, int>, fetched: map<int, int>, address: int, items: seq<int>)
    requires forall a :: address <= a < address + |items| ==> Some(a) in w && w[Some(a)] == items[a - address]
    requires forall a :: address <= a < address + |items| && a in fetched ==> fetched[a] == items[a - address]
    ensures CachedRange(Refresh(w, w.Keys, fetched), address, |items|) == Ok(items)
  {
    var r := Refresh(w, w.Keys, fetched);
    assert forall a :: address <= a < address + |items| ==> Some(a) in r && r[Some(a)] == items[a - address];
    CachedRangeHolds(r, address, items);
  }

  /** A range every register of which holds the given values reads back as
      those values. */
  lemma CachedRangeHolds(cache: map<Option<int>, int>, address: int, items: seq<int>)
    requires forall a :: address <= a < address + |items| ==> Some(a) in cache && cache[Some(a)] == items[a - address]
    ensures CachedRange(cache, address, |items|) == Ok(items)
  {
    var r := CachedRange(cache, address, |items|);
    forall k | 0 <= k < |items|
      ensures r.value[k] == items[k]
    {
      assert cache[Some(address + k)] == items[(address + k) - address];
    }
    assert r.value == items;
  }

  /** A range the cache holds at `items`, refreshed from rows that carry
      the same values, reads back as `items`. */
  lemma RefreshedEcho(w: map<Option<int>, int>, rows: seq<Record>, address: int, items: seq<int>)
    requires forall a :: address <= a < address + |items| ==> Some(a) in w && w[Some(a)] == items[a - address]
    requires Echoes(rows, address, items)
    ensures CachedRange(Refresh(w, w.Keys, KeyedValues(rows)), address, |items|) == Ok(items)
  {
    KeyedEcho(rows, address, items);
    RefreshedRange(w, KeyedValues(rows), address, items);
  }

  /** The round trip of a sparse block: after `setValues(address, values)`
      with a list (or a single int), `getValues(address, len(values))`
      returns those values, provided the store holds them too. Every
      register of the range is a key after the write, and a returned row
      that refreshes it carries the value that was written. */
  lemma SparseRoundTrip(cache: map<Option<int>, int>, address: int, p: Payload, returned: seq<Record>)
    requires !p.Mapping?
    requires Echoes(returned, address, AsList(p))
    ensures var w := Store(cache, Pairs(address, p));
      CachedRange(Refresh(w, w.Keys, KeyedValues(SortByAddress(returned))), address, |AsList(p)|) == Ok(AsList(p))
  {
    var rows := SortByAddress(returned);
    StoreListHolds(cache, address, p);
    EchoesPermuted(returned, rows, address, AsList(p));
    RefreshedEcho(Store(cache, Pairs(address, p)), rows, address, AsList(p));
  }

  /** A write of one value to a sequential block never reaches the store. */
  lemma SingleWriteStaysLocal(o: Origin, t: RegType, address: nat, v: int)
    ensures WritesFrom(o, t, address, [v], address) == []
  {
    SequentialWrites(o, t, address, [v]);
  }

  /** A read of register 0 returns what the store holds for it, whatever
      the cache held. */
  lemma SequentialReadZero(c: Cache, o: Origin, returned: seq<Record>)
    requires !o.sparse && |c.values| > 0 && |c.timestamps| > 0
    ensures var g := SequentialGet(c, 0, o, 0, 1, returned);
      var rows := SortByAddress(returned);
      && (g.result.Ok? <==> |rows| > 0 && rows[0].address == 0)
      && (g.result.Ok? ==> g.result.value == [rows[0].data])
  {
    SequentialGetOutcome(c, 0, o, 0, 1, returned);
    var g := SequentialGet(c, 0, o, 0, 1, returned);
    if g.result.Ok? {
      SliceInRange(g.cache.values, 0, 1);
    }
  }

  /** The round trip of a sequential block based at 0, as written: a write
      of one value never reaches the store, a read of one register off
      absolute address 0 raises (`SequentialGetOffZero`), and a read of
      register 0 returns what the store holds for it, not the value just
      written to the cache. */
  lemma SequentialRoundTrip(c: Cache, o: Origin, t: RegType, address: nat, v: int, returned: seq<Record>)
    requires !o.sparse
    ensures WritesFrom(o, t, address, [v], address) == []
    ensures address > 0 ==>
      SequentialGet(Cache(AssignSlice(c.values, address, address + 1, [v]), c.timestamps), 0, o, address, 1, returned).result.Err?
    ensures address == 0 && |c.values| > 0 && |c.timestamps| > 0 ==>
      var g := SequentialGet(Cache(AssignSlice(c.values, 0, 1, [v]), c.timestamps), 0, o, 0, 1, returned);
      var rows := SortByAddress(returned);
      && (g.result.Ok? <==> |rows| > 0 && rows[0].address == 0)
      && (g.result.Ok? ==> g.result.value == [rows[0].data])
  {
    SingleWriteStaysLocal(o, t, address, v);
    var c' := Cache(AssignSlice(c.values, address, address + 1, [v]), c.timestamps);
    if address > 0 {
      SequentialGetOffZero(c', 0, o, address, 1, returned);
    } else if |c.values| > 0 && |c.timestamps| > 0 {
      AssignSliceInRange(c.values, 0, [v]);
      SequentialReadZero(c', o, returned);
    }
  }

  // ---------- the sparse block ----------

  /** `CbModbusSparseDataBlock`: the registers named by the keys of its
      value dict, owned by a sparse slave context. A key may be `None` (a
      register whose address the template rejected). */
  class SparseBlock {
    const origin: Origin
    const registerType: RegType
    var values: map<Option<int>, int>
    var timestamps: map<Option<int>, Timestamp>
    ghost var calls: seq<StoreCall>

    /** The block with its initial values and an empty timestamp for each key. */
    constructor (origin: Origin, registerType: RegType, values: map<Option<int>, int>)
      ensures this.origin == origin && this.registerType == registerType && this.values == values
      ensures timestamps.Keys == values.Keys
      ensures forall k :: k in timestamps ==> timestamps[k] == None
      ensures calls == []
    {
      var ts: map<Option<int>, Timestamp> := map[];
      var rest := values.Keys;
      while |rest| > 0
        invariant rest <= values.Keys
        invariant ts.Keys == values.Keys - rest
        invariant forall k :: k in ts ==> ts[k] == None
        decreases rest
      {
        var k :| k in rest;
        ts := ts[k := None];
        rest := rest - {k};
      }
      this.origin := origin;
      this.registerType := registerType;
      this.values := values;
      timestamps := ts;
      calls := [];
    }

    /** The constructor's register type check, as for the sequential block. */
    static method Create(origin: Origin, registerType: string, values: map<Option<int>, int>)
      returns (r: Result<SparseBlock>)
      ensures r.Err? <==> CheckRegisterType(registerType).Err?
      ensures r.Err? ==> r.error == ParameterException
      ensures r.Ok? ==> fresh(r.value) && TypeName(r.value.registerType) == registerType
      ensures r.Ok? ==> r.value.origin == origin && r.value.values == values && r.value.calls == []
      ensures r.Ok? ==> r.value.timestamps.Keys == values.Keys
      ensures r.Ok? ==> forall k :: k in r.value.timestamps ==> r.value.timestamps[k] == None
    {
      var t := CheckRegisterType(registerType);
      if t.Err? {
        return Err(t.error);
      }
      var b := new SparseBlock(origin, t.value, values);
      return Ok(b);
    }

    /** `getValues(address, count)`: reads the rows from the store, refreshes
        the registers the block already has, and returns the cached values
        of the range. */
    method GetValues(address: nat, count: nat, returned: seq<Record>) returns (r: Result<seq<int>>)
      requires origin.sparse
      modifies this
      ensures calls == old(calls) + [GetItems(ReadFilter(origin, registerType, address, count))]
      ensures values == Refresh(old(values), old(values).Keys, KeyedValues(SortByAddress(returned)))
      ensures timestamps == Refresh(old(timestamps), old(values).Keys, KeyedTimestamps(SortByAddress(returned)))
      ensures r == CachedRange(values, address, count)
    {
      var query, read := ReadCollectionData(origin, registerType, address, count, BlockFill, returned);
      calls := calls + [GetItems(query)];
      SparseReadShape(origin, address, count, BlockFill, returned);
      Merge(read.value.values, read.value.timestamps, AddressSeq(SortByAddress(returned)));
      r := CachedRange(values, address, count);
    }

    /** The merge loop of sparse `getValues`: each returned address that is
        already a key of the block takes the returned value and timestamp.
        The returned dict is walked in `order`, its insertion order. */
    method Merge(fetched: map<int, int>, stamps: map<int, Timestamp>, order: seq<int>)
      requires fetched.Keys == stamps.Keys
      requires forall a :: a in fetched <==> a in order
      modifies this`values, this`timestamps
      ensures values == Refresh(old(values), old(values).Keys, fetched)
      ensures timestamps == Refresh(old(timestamps), old(values).Keys, stamps)
    {
      ghost var v0, t0 := values, timestamps;
      ghost var done: set<int> := {};
      var i := 0;
      while i < |order|
        invariant 0 <= i <= |order|
        invariant done == set j | 0 <= j < i :: order[j]
        invariant Refreshed(v0, v0.Keys, fetched, done, values)
        invariant Refreshed(t0, v0.Keys, stamps, done, timestamps)
      {
        var key := order[i];
        if Some(key) in values {
          values := values[Some(key) := fetched[key]];
          timestamps := timestamps[Some(key) := stamps[key]];
        }
        done := done + {key};
        i := i + 1;
      }
      assert done == fetched.Keys by {
        forall a | a in fetched
          ensures a in done
        {
          var j :| 0 <= j < |order| && order[j] == a;
        }
      }
      RefreshedAll(v0, v0.Keys, fetched, done, values);
      RefreshedAll(t0, v0.Keys, stamps, done, timestamps);
    }

    /** `setValues(address, values)`: stores each pair in the cache and writes
        it to the store, one call per pair. */
    method SetValues(address: nat, payload: Payload)
      modifies this
      ensures values == Store(old(values), Pairs(address, payload))
      ensures timestamps == old(timestamps)
      ensures calls == old(calls) + PairWrites(origin, registerType, Pairs(address, payload))
    {
      var pairs := Pairs(address, payload);
      var i := 0;
      while i < |pairs|
        invariant 0 <= i <= |pairs|
        invariant values == Store(old(values), pairs[..i])
        invariant timestamps == old(timestamps)
        invariant calls == old(calls) + PairWrites(origin, registerType, pairs[..i])
      {
        assert pairs[..i + 1][..i] == pairs[..i];
        values := values[Some(pairs[i].0) := pairs[i].1];
        calls := calls + [WriteCall(origin, registerType, pairs[i].0, pairs[i].1)];
        i := i + 1;
      }
      assert pairs[..i] == pairs;
    }

    /** `get_timestamps(address, count)`: the cached timestamps of the range,
        without asking the store. */
    function GetTimestamps(address: int, count: nat): (r: Result<seq<Timestamp>>)
      reads this
      ensures r.Ok? <==> Covers(timestamps, address, count)
      ensures r.Ok? ==> |r.value| == count && forall k :: 0 <= k < count ==> r.value[k] == timestamps[Some(address + k)]
    {
      CachedRange(timestamps, address, count)
    }

    /** The range check of the pymodbus sparse block. */
    predicate Validate(address: int, count: int)
      reads this
    {
      count > 0 && Covers(values, address, count)
    }
  }
}
