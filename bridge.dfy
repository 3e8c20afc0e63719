/** The remote store bridge of store.py: the filters that `read_collection_data`
    and `write_collection_data` build, and the reshaping of the rows a read
    returns. The store itself is outside the model: a read is given the rows
    the store answered with, and a write is recorded as the update call it
    issues. */
module Bridge {
  import opened Base
  import opened Lists

  /** A register's provenance timestamp, as kept in the `timestamp` column. */
  type Timestamp = Option<string>

  /** The four Modbus register types. */
  datatype RegType = HoldingRegister | InputRegister | DiscreteInput | Coil

  /** The type tags `hr`, `ir`, `di`, `co` (REGISTER_TYPES). */
  function TypeName(t: RegType): string {
    match t
    case HoldingRegister => "hr"
    case InputRegister => "ir"
    case DiscreteInput => "di"
    case Coil => "co"
  }

  /** The check both data-block constructors make on their register type. */
  function CheckRegisterType(s: string): (r: Result<RegType>)
    ensures r.Ok? ==> TypeName(r.value) == s
    ensures r.Err? ==> r.error == ParameterException
    ensures r.Err? <==> s !in {"hr", "ir", "di", "co"}
  {
    if s == "hr" then Ok(HoldingRegister)
    else if s == "ir" then Ok(InputRegister)
    else if s == "di" then Ok(DiscreteInput)
    else if s == "co" then Ok(Coil)
    else Err(ParameterException)
  }

  /** What a block knows of its owning slave context when it talks to the
      store: the proxy address, the slave id and the context's sparse flag. */
  datatype Origin = Origin(ip: string, slaveId: int, sparse: bool)

  // ---------- rows and filters ----------

  /** One row of the data collection. */
  datatype Record = Record(ip: string, slaveId: int, regType: string, address: int, data: int, timestamp: Timestamp)

  const ColIpAddress := "ip_address"
  const ColSlaveId := "slave_id"
  const ColRegType := "register_type"
  const ColRegAddress := "register_address"

  datatype Value = Text(text: string) | Number(number: int)

  /** The columns a filter can test. */
  function Column(r: Record, name: string): Option<Value> {
    if name == ColIpAddress then Some(Text(r.ip))
    else if name == ColSlaveId then Some(Number(r.slaveId))
    else if name == ColRegType then Some(Text(r.regType))
    else if name == ColRegAddress then Some(Number(r.address))
    else None
  }

  /** One clause of a ClearBlade `Query`: `equalTo`, `greaterThanEqualTo` or `lessThan`. */
  datatype Cond = Equal(column: string, value: Value) | AtLeast(column: string, bound: int) | Below(column: string, bound: int)

  predicate Holds(c: Cond, r: Record) {
    match c
    case Equal(name, v) => Column(r, name) == Some(v)
    case AtLeast(name, b) => Column(r, name).Some? && Column(r, name).value.Number? && Column(r, name).value.number >= b
    case Below(name, b) => Column(r, name).Some? && Column(r, name).value.Number? && Column(r, name).value.number < b
  }

  /** A row is selected when every clause of the query holds of it. */
  predicate Matches(query: seq<Cond>, r: Record) {
    forall i :: 0 <= i < |query| ==> Holds(query[i], r)
  }

  /** The query `read_collection_data` sends. */
  function ReadFilter(o: Origin, t: RegType, address: int, count: int): seq<Cond> {
    [Equal(ColIpAddress, Text(o.ip)), Equal(ColSlaveId, Number(o.slaveId)), Equal(ColRegType, Text(TypeName(t)))]
    + if count > 1 then [AtLeast(ColRegAddress, address), Below(ColRegAddress, address + count)]
      else [Equal(ColRegAddress, Number(address))]
  }

  /** The query `write_collection_data` updates through. */
  function WriteFilter(o: Origin, t: RegType, address: int): seq<Cond> {
    [Equal(ColIpAddress, Text(o.ip)), Equal(ColSlaveId, Number(o.slaveId)), Equal(ColRegType, Text(TypeName(t))),
     Equal(ColRegAddress, Number(address))]
  }

  /** The read selects the rows of this proxy, slave and type whose address
      lies in `[address, address + count)` when `count > 1`, and the one row
      at `address` otherwise (also for `count == 0`). */
  lemma ReadFilterSelects(o: Origin, t: RegType, address: int, count: int, r: Record)
    ensures Matches(ReadFilter(o, t, address, count), r) <==>
      && r.ip == o.ip && r.slaveId == o.slaveId && r.regType == TypeName(t)
      && if count > 1 then address <= r.address < address + count else r.address == address
  {
    var q := ReadFilter(o, t, address, count);
    if Matches(q, r) {
      assert Holds(q[0], r) && Holds(q[1], r) && Holds(q[2], r) && Holds(q[3], r);
      if count > 1 {
        assert Holds(q[4], r);
      }
    }
  }

  /** The write selects exactly the row of this proxy, slave, type and address. */
  lemma WriteFilterSelects(o: Origin, t: RegType, address: int, r: Record)
    ensures Matches(WriteFilter(o, t, address), r) <==>
      r.ip == o.ip && r.slaveId == o.slaveId && r.regType == TypeName(t) && r.address == address
  {
    var q := WriteFilter(o, t, address);
    if Matches(q, r) {
      assert Holds(q[0], r) && Holds(q[1], r) && Holds(q[2], r) && Holds(q[3], r);
    }
  }

  /** A write goes to exactly the row a one-register read of the same address reads. */
  lemma WriteFilterIsSingleRead(o: Origin, t: RegType, address: int)
    ensures WriteFilter(o, t, address) == ReadFilter(o, t, address, 1)
  {
  }

  /** The calls a block makes on the data collection. */
  datatype StoreCall = GetItems(query: seq<Cond>) | UpdateItems(query: seq<Cond>, data: int)

  /** The one call `write_collection_data` makes. */
  function WriteCall(o: Origin, t: RegType, address: int, data: int): StoreCall {
    UpdateItems(WriteFilter(o, t, address), data)
  }

  // ---------- sorted(rows, key=address) ----------

  predicate SortedByAddress(rows: seq<Record>) {
    forall i, j :: 0 <= i < j < |rows| ==> rows[i].address <= rows[j].address
  }

  /** No row carries an address above `b`. */
  predicate AtMost(s: seq<Record>, b: int) {
    forall k :: 0 <= k < |s| ==> s[k].address <= b
  }

  lemma SortedAtMostLast(s: seq<Record>)
    requires |s| > 0 && SortedByAddress(s)
    ensures AtMost(s, s[|s| - 1].address)
  {
  }

  lemma AtMostPermutation(r: seq<Record>, t: seq<Record>, b: int)
    requires multiset(r) == multiset(t) && AtMost(t, b)
    ensures AtMost(r, b)
  {
    forall k | 0 <= k < |r|
      ensures r[k].address <= b
    {
      assert r[k] in multiset(t);
      var j :| 0 <= j < |t| && t[j] == r[k];
    }
  }

  lemma SortedSnoc(r: seq<Record>, y: Record)
    requires SortedByAddress(r) && AtMost(r, y.address)
    ensures SortedByAddress(r + [y])
  {
  }

  /** Places `x` after every row whose address is not larger. */
  function InsertByAddress(x: Record, s: seq<Record>): (r: seq<Record>)
    requires SortedByAddress(s)
    ensures multiset(r) == multiset(s) + multiset{x}
    ensures SortedByAddress(r)
  {
    if |s| == 0 then [x]
    else if s[|s| - 1].address <= x.address then
      SortedAtMostLast(s);
      SortedSnoc(s, x);
      s + [x]
    else
      var init, last := s[..|s| - 1], s[|s| - 1];
      assert s == init + [last];
      var r' := InsertByAddress(x, init);
      SortedAtMostLast(s);
      assert AtMost(init + [x], last.address);
      AtMostPermutation(r', init + [x], last.address);
      SortedSnoc(r', last);
      r' + [last]
  }

  /** `sorted(rows, key=lambda k: k[register_address])` */
  function SortByAddress(rows: seq<Record>): (r: seq<Record>)
    ensures multiset(r) == multiset(rows)
    ensures SortedByAddress(r)
  {
    if |rows| == 0 then []
    else
      assert rows == rows[..|rows| - 1] + [rows[|rows| - 1]];
      InsertByAddress(rows[|rows| - 1], SortByAddress(rows[..|rows| - 1]))
  }

  // ---------- reshaping the rows ----------

  /** The value a missing register is filled with: `None`, an int, or
      something else (the parameter is untyped in the source). */
  datatype Fill = NoFill | FillWith(value: int) | FillOther

  /** What `read_collection_data` returns: dicts keyed by address for a
      sparse context, lists in address order otherwise. */
  datatype Fetched =
    | Keyed(values: map<int, int>, timestamps: map<int, Timestamp>)
    | Listed(items: seq<int>, stamps: seq<Timestamp>)

  /** An element of `reg_list`: a row from the store, or the gap filler
      `{register_data: fill}` that has neither an address nor a timestamp. */
  datatype Entry = Row(record: Record) | Filler(data: int)

  function AddressOf(e: Entry): Result<int> {
    match e
    case Row(r) => Ok(r.address)
    case Filler(_) => Err(KeyError)
  }

  function DataOf(e: Entry): int {
    match e
    case Row(r) => r.data
    case Filler(d) => d
  }

  function TimestampOf(e: Entry): Result<Timestamp> {
    match e
    case Row(r) => Ok(r.timestamp)
    case Filler(_) => Err(KeyError)
  }

  function AsEntries(rows: seq<Record>): (es: seq<Entry>)
    ensures |es| == |rows|
    ensures forall k :: 0 <= k < |rows| ==> es[k] == Row(rows[k])
  {
    seq(|rows|, k requires 0 <= k < |rows| => Row(rows[k]))
  }

  /** The sparse branch: each row's data under its address, a later row
      replacing an earlier one at the same address. */
  function KeyedValues(rows: seq<Record>): map<int, int> {
    if |rows| == 0 then map[]
    else KeyedValues(rows[..|rows| - 1])[rows[|rows| - 1].address := rows[|rows| - 1].data]
  }

  function KeyedTimestamps(rows: seq<Record>): map<int, Timestamp> {
    if |rows| == 0 then map[]
    else KeyedTimestamps(rows[..|rows| - 1])[rows[|rows| - 1].address := rows[|rows| - 1].timestamp]
  }

  /** The sparse branch holds exactly the returned addresses. */
  lemma {:induction false} KeyedKeys(rows: seq<Record>)
    ensures KeyedValues(rows).Keys == KeyedTimestamps(rows).Keys == Addresses(rows)
  {
    if |rows| > 0 {
      var init := rows[..|rows| - 1];
      KeyedKeys(init);
      assert forall k :: 0 <= k < |init| ==> init[k] == rows[k];
      assert Addresses(rows) == Addresses(init) + {rows[|rows| - 1].address};
    }
  }

  /** Each returned address keeps the data and timestamp of the last row
      returned for it. */
  lemma {:induction false} KeyedLastWins(rows: seq<Record>, k: nat)
    requires k < |rows|
    requires forall j :: k < j < |rows| ==> rows[j].address != rows[k].address
    ensures rows[k].address in KeyedValues(rows) && KeyedValues(rows)[rows[k].address] == rows[k].data
    ensures rows[k].address in KeyedTimestamps(rows) && KeyedTimestamps(rows)[rows[k].address] == rows[k].timestamp
  {
    var init := rows[..|rows| - 1];
    if k < |rows| - 1 {
      assert init[k] == rows[k];
      assert forall j :: k < j < |init| ==> init[j] == rows[j];
      KeyedLastWins(init, k);
    }
  }

  /** The exception a register whose row is out of place ends in, for each
      kind of fill: `ParameterException` without a fill, `ValueError` for a
      non-integer fill, and for an integer fill the `KeyError` that reading
      the filler's missing timestamp raises. */
  function MismatchError(fill: Fill): Exception {
    match fill
    case NoFill => ParameterException
    case FillOther => ValueError
    case FillWith(_) => KeyError
  }

  /** The sequential branch, from register `addr` on, with the lists built so
      far: `reg_list` is indexed by the absolute register address. */
  function ListedFrom(list: seq<Entry>, addr: nat, end: nat, fill: Fill, vs: seq<int>, ts: seq<Timestamp>): (r: Result<Fetched>)
    ensures r.Ok? ==> r.value.Listed?
    decreases end - addr
  {
    if end <= addr then Ok(Listed(vs, ts))
    else if |list| <= addr then Err(IndexError)
    else match AddressOf(list[addr])
      case Err(e) => Err(e)
      case Ok(a) =>
        if a != addr && fill.NoFill? then Err(ParameterException)
        else if a != addr && fill.FillOther? then Err(ValueError)
        else
          var list' := if a != addr then Insert(list, addr, Filler(fill.value)) else list;
          match TimestampOf(list'[addr])
          case Err(e) => Err(e)
          case Ok(t) => ListedFrom(list', addr + 1, end, fill, vs + [DataOf(list'[addr])], ts + [t])
  }

  /** `read_collection_data(context, register_type, address, count, fill)`
      given the rows the store returned for its query. */
  function ReadSpec(o: Origin, address: nat, count: nat, fill: Fill, returned: seq<Record>): (r: Result<Fetched>)
    ensures r.Ok? ==> (r.value.Keyed? <==> o.sparse)
  {
    var regList := SortByAddress(returned);
    if o.sparse then Ok(Keyed(KeyedValues(regList), KeyedTimestamps(regList)))
    else ListedFrom(AsEntries(regList), address, address + count, fill, [], [])
  }

  /** The rows at positions `[lo, hi)` of the sorted list carry exactly the
      addresses `lo .. hi-1`: the sequential branch needs this because it
      looks a register up by its address used as a list index. */
  predicate Aligned(rows: seq<Record>, lo: nat, hi: nat) {
    hi <= lo || (hi <= |rows| && forall k :: lo <= k < hi ==> rows[k].address == k)
  }

  function Datas(rows: seq<Record>): (r: seq<int>)
    ensures |r| == |rows|
    ensures forall k :: 0 <= k < |rows| ==> r[k] == rows[k].data
  {
    seq(|rows|, k requires 0 <= k < |rows| => rows[k].data)
  }

  function Stamps(rows: seq<Record>): (r: seq<Timestamp>)
    ensures |r| == |rows|
    ensures forall k :: 0 <= k < |rows| ==> r[k] == rows[k].timestamp
  {
    seq(|rows|, k requires 0 <= k < |rows| => rows[k].timestamp)
  }

  /** One register whose row is in place: its data and timestamp are appended. */
  lemma ListedFromInPlace(rows: seq<Record>, addr: nat, end: nat, fill: Fill, vs: seq<int>, ts: seq<Timestamp>)
    requires addr < end && addr < |rows| && rows[addr].address == addr
    ensures ListedFrom(AsEntries(rows), addr, end, fill, vs, ts)
         == ListedFrom(AsEntries(rows), addr + 1, end, fill, vs + [rows[addr].data], ts + [rows[addr].timestamp])
  {
  }

  /** One register whose row is out of place: the read raises, whatever the fill. */
  lemma ListedFromOutOfPlace(rows: seq<Record>, addr: nat, end: nat, fill: Fill, vs: seq<int>, ts: seq<Timestamp>)
    requires addr < end && addr < |rows| && rows[addr].address != addr
    ensures ListedFrom(AsEntries(rows), addr, end, fill, vs, ts) == Err(MismatchError(fill))
  {
    var list := AsEntries(rows);
    if fill.FillWith? {
      var list' := Insert(list, addr, Filler(fill.value));
      assert list'[addr] == Filler(fill.value);
    }
  }

  lemma DatasCons(x: Record, s: seq<Record>)
    ensures Datas([x] + s) == [x.data] + Datas(s)
    ensures Stamps([x] + s) == [x.timestamp] + Stamps(s)
  {
    assert forall k :: 0 < k < |s| + 1 ==> ([x] + s)[k] == s[k - 1];
  }

  /** A window of at least one row is its first row followed by the rest. */
  lemma WindowCons(rows: seq<Record>, addr: nat, end: nat)
    requires addr < end <= |rows|
    ensures Datas(Slice(rows, addr, end)) == [rows[addr].data] + Datas(Slice(rows, addr + 1, end))
    ensures Stamps(Slice(rows, addr, end)) == [rows[addr].timestamp] + Stamps(Slice(rows, addr + 1, end))
  {
    var w, w' := rows[addr..end], rows[addr + 1..end];
    assert Slice(rows, addr, end) == w;
    assert Slice(rows, addr + 1, end) == w';
    assert w == [rows[addr]] + w';
    DatasCons(rows[addr], w');
  }

  /** What the sequential branch does with aligned rows: it returns their
      data and timestamps, in order. */
  lemma {:induction false} ListedFromAligned(rows: seq<Record>, addr: nat, end: nat, fill: Fill, vs: seq<int>, ts: seq<Timestamp>)
    requires addr <= end && Aligned(rows, addr, end)
    ensures ListedFrom(AsEntries(rows), addr, end, fill, vs, ts)
         == Ok(Listed(vs + Datas(Slice(rows, addr, end)), ts + Stamps(Slice(rows, addr, end))))
    decreases end - addr
  {
    if addr < end {
      var d, t := rows[addr].data, rows[addr].timestamp;
      ListedFromInPlace(rows, addr, end, fill, vs, ts);
      ListedFromAligned(rows, addr + 1, end, fill, vs + [d], ts + [t]);
      WindowCons(rows, addr, end);
      assert vs + [d] + Datas(Slice(rows, addr + 1, end)) == vs + Datas(Slice(rows, addr, end));
      assert ts + [t] + Stamps(Slice(rows, addr + 1, end)) == ts + Stamps(Slice(rows, addr, end));
    } else {
      assert Datas(Slice(rows, addr, end)) == [] && Stamps(Slice(rows, addr, end)) == [];
      assert vs + [] == vs && ts + [] == ts;
    }
  }

  /** What the sequential branch does with rows that are not aligned: it
      raises, and a gap is never filled: either the rows run out
      (`IndexError`) or the out-of-place register raises `MismatchError(fill)`,
      and only the latter when the rows reach far enough. */
  lemma {:induction false} ListedFromMisaligned(rows: seq<Record>, addr: nat, end: nat, fill: Fill, vs: seq<int>, ts: seq<Timestamp>)
    requires addr <= end && !Aligned(rows, addr, end)
    ensures ListedFrom(AsEntries(rows), addr, end, fill, vs, ts) in {Err(IndexError), Err(MismatchError(fill))}
    ensures end <= |rows| ==> ListedFrom(AsEntries(rows), addr, end, fill, vs, ts) == Err(MismatchError(fill))
    decreases end - addr
  {
    if |rows| <= addr {
      assert ListedFrom(AsEntries(rows), addr, end, fill, vs, ts) == Err(IndexError);
    } else if rows[addr].address != addr {
      ListedFromOutOfPlace(rows, addr, end, fill, vs, ts);
    } else {
      assert !Aligned(rows, addr + 1, end);
      ListedFromInPlace(rows, addr, end, fill, vs, ts);
      ListedFromMisaligned(rows, addr + 1, end, fill, vs + [rows[addr].data], ts + [rows[addr].timestamp]);
    }
  }

  lemma ListedReadAligned(rows: seq<Record>, address: nat, count: nat, fill: Fill)
    requires Aligned(rows, address, address + count)
    ensures ListedFrom(AsEntries(rows), address, address + count, fill, [], [])
         == Ok(Listed(Datas(Slice(rows, address, address + count)), Stamps(Slice(rows, address, address + count))))
  {
    var window := Slice(rows, address, address + count);
    ListedFromAligned(rows, address, address + count, fill, [], []);
    assert [] + Datas(window) == Datas(window);
    assert [] + Stamps(window) == Stamps(window);
  }

  /** The sequential branch on sorted rows, whatever those rows are. */
  lemma ListedRead(rows: seq<Record>, address: nat, count: nat, fill: Fill)
    ensures var r := ListedFrom(AsEntries(rows), address, address + count, fill, [], []);
      && (r.Ok? <==> Aligned(rows, address, address + count))
      && (r.Ok? ==> r == Ok(Listed(Datas(Slice(rows, address, address + count)), Stamps(Slice(rows, address, address + count)))))
      && (r.Err? ==> r.error == IndexError || r.error == MismatchError(fill))
      && (r.Err? && address + count <= |rows| ==> r.error == MismatchError(fill))
  {
    if Aligned(rows, address, address + count) {
      ListedReadAligned(rows, address, count, fill);
    } else {
      ListedFromMisaligned(rows, address, address + count, fill, [], []);
    }
  }

  /** A sequential read returns a value exactly when the sorted rows are
      aligned on `[address, address + count)`, and then returns their data
      and timestamps in order; otherwise it raises `IndexError` (too few rows)
      or `MismatchError(fill)`. An integer fill therefore never turns a gap
      into a value. */
  lemma SequentialRead(o: Origin, address: nat, count: nat, fill: Fill, returned: seq<Record>)
    requires !o.sparse
    ensures var rows := SortByAddress(returned); var r := ReadSpec(o, address, count, fill, returned);
      && (r.Ok? <==> Aligned(rows, address, address + count))
      && (r.Ok? ==> r == Ok(Listed(Datas(Slice(rows, address, address + count)), Stamps(Slice(rows, address, address + count)))))
      && (r.Err? ==> r.error == IndexError || r.error == MismatchError(fill))
      && (r.Err? && address + count <= |rows| ==> r.error == MismatchError(fill))
  {
    ListedRead(SortByAddress(returned), address, count, fill);
  }

  /** A sequential read that succeeds returns exactly `count` values and
      `count` timestamps. */
  lemma SequentialReadLength(o: Origin, address: nat, count: nat, fill: Fill, returned: seq<Record>)
    requires !o.sparse
    ensures var r := ReadSpec(o, address, count, fill, returned);
      r.Ok? ==> r.value.Listed? && |r.value.items| == count && |r.value.stamps| == count
  {
    var rows := SortByAddress(returned);
    SequentialRead(o, address, count, fill, returned);
    if Aligned(rows, address, address + count) && count > 0 {
      assert Slice(rows, address, address + count) == rows[address..address + count];
    }
  }

  /** The addresses a list of rows carries. */
  function Addresses(rows: seq<Record>): set<int> {
    set i | 0 <= i < |rows| :: rows[i].address
  }

  /** The addresses of the rows, in row order: the insertion order of the
      dicts the sparse branch builds. */
  function AddressSeq(rows: seq<Record>): (r: seq<int>)
    ensures |r| == |rows|
    ensures forall k :: 0 <= k < |rows| ==> r[k] == rows[k].address
  {
    seq(|rows|, k requires 0 <= k < |rows| => rows[k].address)
  }

  /** The sparse branch's dicts have exactly the addresses of the sorted rows
      as keys, and those are the addresses the rows list in order. */
  lemma SparseReadShape(o: Origin, address: nat, count: nat, fill: Fill, returned: seq<Record>)
    requires o.sparse
    ensures var rows := SortByAddress(returned);
      && ReadSpec(o, address, count, fill, returned) == Ok(Keyed(KeyedValues(rows), KeyedTimestamps(rows)))
      && KeyedValues(rows).Keys == KeyedTimestamps(rows).Keys
      && forall a :: a in KeyedValues(rows) <==> a in AddressSeq(rows)
  {
    var rows := SortByAddress(returned);
    KeyedKeys(rows);
    forall a | a in KeyedValues(rows)
      ensures a in AddressSeq(rows)
    {
      var i :| 0 <= i < |rows| && rows[i].address == a;
      assert AddressSeq(rows)[i] == a;
    }
  }

  lemma AddressesIncluded(a: seq<Record>, b: seq<Record>)
    requires multiset(a) == multiset(b)
    ensures Addresses(a) <= Addresses(b)
  {
    forall x | x in Addresses(a)
      ensures x in Addresses(b)
    {
      var i :| 0 <= i < |a| && a[i].address == x;
      assert a[i] in multiset(b);
      var j :| 0 <= j < |b| && b[j] == a[i];
    }
  }

  /** A sparse read never raises, and holds exactly the returned addresses
      (each with the data and timestamp of its last row, `KeyedLastWins`). */
  lemma SparseRead(o: Origin, address: nat, count: nat, fill: Fill, returned: seq<Record>)
    requires o.sparse
    ensures var r := ReadSpec(o, address, count, fill, returned);
      r.Ok? && r.value.Keyed?
      && r.value.values.Keys == r.value.timestamps.Keys == Addresses(returned)
  {
    var rows := SortByAddress(returned);
    KeyedKeys(rows);
    AddressesIncluded(rows, returned);
    AddressesIncluded(returned, rows);
  }

  /** `read_collection_data`: builds the query, sorts the returned rows by
      address and reshapes them. */
  method ReadCollectionData(o: Origin, t: RegType, address: nat, count: nat, fill: Fill, returned: seq<Record>)
    returns (query: seq<Cond>, r: Result<Fetched>)
    ensures query == ReadFilter(o, t, address, count)
    ensures r == ReadSpec(o, address, count, fill, returned)
  {
    query := ReadFilter(o, t, address, count);
    var regList := SortByAddress(returned);
    if o.sparse {
      var values: map<int, int> := map[];
      var timestamps: map<int, Timestamp> := map[];
      var i := 0;
      while i < |regList|
        invariant 0 <= i <= |regList|
        invariant values == KeyedValues(regList[..i])
        invariant timestamps == KeyedTimestamps(regList[..i])
      {
        assert regList[..i + 1][..i] == regList[..i];
        values := values[regList[i].address := regList[i].data];
        timestamps := timestamps[regList[i].address := regList[i].timestamp];
        i := i + 1;
      }
      assert regList[..i] == regList;
      r := Ok(Keyed(values, timestamps));
    } else {
      var entries := AsEntries(regList);
      var values: seq<int> := [];
      var timestamps: seq<Timestamp> := [];
      var addr := address;
      while addr < address + count
        invariant address <= addr <= address + count
        invariant ReadSpec(o, address, count, fill, returned)
               == ListedFrom(entries, addr, address + count, fill, values, timestamps)
        decreases address + count - addr
      {
        if |entries| <= addr {
          return query, Err(IndexError);
        }
        if entries[addr].Filler? {
          return query, Err(KeyError);
        }
        if entries[addr].record.address != addr {
          match fill
          case NoFill =>
            return query, Err(ParameterException);
          case FillOther =>
            return query, Err(ValueError);
          case FillWith(v) =>
            entries := Insert(entries, addr, Filler(v));
        }
        values := values + [DataOf(entries[addr])];
        if entries[addr].Filler? {
          return query, Err(KeyError);
        }
        timestamps := timestamps + [entries[addr].record.timestamp];
        addr := addr + 1;
      }
      r := Ok(Listed(values, timestamps));
    }
  }
}
