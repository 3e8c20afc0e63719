# Modbus proxy slave contexts and register blocks, in Dafny

This project models the core of `modbusproxy_cpe_cb`. The proxy serves Modbus
requests from register blocks whose values live in a ClearBlade collection.
Each remote unit (RTU) has one slave context. It is configured from a row of the
configuration collection, and its device template (`config.dat` of the Modbus
proxy) gives it:

- its identity;
- its sparse flag;
- its slave id and zero mode;
- one register block per register type (holding registers `h`, input
  registers `i`, discrete inputs `d`, coils `c`).

A block is either sparse (a dict from address to value) or sequential (a base
address and a list of values). Each block keeps a cache of values and
timestamps. The cache is refreshed from the collection on every read, and every
write goes through to the collection. The server context keeps one slave context
per slave id, and the first row with a given id wins.

Modules:

- `Base`: `Option`, the Python exceptions the code raises, and `Result`.
- `Text`: the parts of Python's `str` the parser uses: prefix tests by slicing,
  `split`, `strip`, `lower`, and `int()` on decimal strings.
- `Lists`: Python list slicing, slice assignment and `insert`.
- `Bridge` (store.py): the filters of `read_collection_data` and
  `write_collection_data`, `sorted` by address, and the reshaping of the
  returned rows.
- `Blocks` (store.py): `CbModbusSequentialDataBlock` and
  `CbModbusSparseDataBlock` as classes. They are proved against specification
  functions of their caches.
- `Template` (context.py): the rules of `_parse_config` as functions, line by
  line and tag by tag, plus the per-type buckets and the sparse and sequential
  layouts.
- `Context` (context.py): `ClearBladeModbusProxySlaveContext` and
  `ClearBladeModbusProxyServerContext` as classes. Their loops are proved
  against the `Template` functions.

The store is a parameter, not a live service. A read receives the rows the store
answered with, and every call a block makes on the store is recorded in the
block's ghost `calls` log.

Every exception is a `Result` error and never a precondition. That covers a
malformed number in the template, an unknown register type, the `TypeError` of
sorting `None` against an int, and the `IndexError`/`KeyError` of the absolute
indexing in the blocks.

Where the code and the documented intent of the system differ, the model follows
the code:

- A malformed number in a template tag (`int()` fails) raises `ValueError` and
  aborts the whole construction of the slave context. It is not skipped. It also
  aborts `_initialize_slaves`, because the exception is not caught there.
- A sequential read does not fill gaps. With the default integer fill, the filler
  row has no timestamp, so the read ends in `KeyError`. Without a fill it ends in
  `ParameterException`, and with a non-integer fill in `ValueError`.
- A sequential read indexes the caches by absolute address, not by
  `address - base`, so a non-empty read succeeds only when it starts at absolute
  address 0. `getValues` clips `count` to the number of values returned, but
  that clip never takes effect: a short read has already raised `IndexError` or
  `KeyError` inside `read_collection_data`, so a read that returns always
  returns exactly `count` values.
- A request for a register type that has no block raises `AttributeError` (a
  method called on `None`), not a range error.
- A `setValues` with a single int raises `TypeError` in the log line (`len()` of
  an int) before the block is reached.
- The slave id of a configuration row is not range-checked by this code. Only a
  template's `networkId=` tag is restricted to `[1, 254]`. The range check
  that pymodbus's `ModbusServerContext.__setitem__` makes on the key is left
  out (see "## Left out").

## Model

| member | source | states |
|---|---|---|
| Text.Split | modbusproxy_cpe_cb/context.py:72 | `line.split(';')` gives at least one piece, and no piece contains the separator |
| Text.JoinSplit | modbusproxy_cpe_cb/context.py:72 | joining the pieces of a split with the separator gives back the line, so the split loses nothing |
| Text.Take | modbusproxy_cpe_cb/context.py:71 | a prefix slice `s[0:n]` is a prefix of `s`, of length `n` when `s` is long enough |
| Text.Drop | modbusproxy_cpe_cb/context.py:75 | `s[n:]` is the suffix after `n` characters, and empty when `n` is past the end |
| Text.StripLeading | modbusproxy_cpe_cb/context.py:75 | the result is a suffix of `s` that does not start with whitespace, and everything removed is whitespace |
| Text.StripTrailing | modbusproxy_cpe_cb/context.py:75 | the result is a prefix of `s` that does not end with whitespace, and everything removed is whitespace |
| Text.StripIdempotent | modbusproxy_cpe_cb/context.py:75 | stripping twice is stripping once |
| Text.Lower | modbusproxy_cpe_cb/context.py:86 | `lower()` keeps the length and lowers each ASCII letter at its position |
| Text.ParseInt | modbusproxy_cpe_cb/context.py:87 | `int()` fails only with `ValueError` |
| Text.ParseIntStrip | modbusproxy_cpe_cb/context.py:92-94 | `int(s.strip()) == int(s)`, so the unstripped re-parse of `networkId` gives the value that was range-checked |
| Text.ParseShow | modbusproxy_cpe_cb/context.py:92 | `int(str(n)) == n` for every integer, so the parser reads back every number |
| Text.ShowNatDigits | modbusproxy_cpe_cb/context.py:92 | the decimal form of a natural number is all digits and denotes that number |
| Text.StripShow | modbusproxy_cpe_cb/context.py:92 | the decimal form of a number has no surrounding whitespace |
| Lists.Clamp | modbusproxy_cpe_cb/store.py:56 | a slice bound is normalised into `[0, len]`, and a bound inside the list is kept as is |
| Lists.Slice | modbusproxy_cpe_cb/store.py:56 | a slice is never longer than the list |
| Lists.SliceInRange | modbusproxy_cpe_cb/store.py:82 | a slice is never longer than its bounds span, and inside the list it is the plain subsequence |
| Lists.AssignSliceInRange | modbusproxy_cpe_cb/store.py:68 | slice assignment inside the list keeps the length, overwrites exactly the slice with the new values, and keeps every other position |
| Lists.AssignSliceGrows | modbusproxy_cpe_cb/store.py:68 | slice assignment that runs past the end makes the list longer, and it then ends with the new values |
| Lists.Insert | modbusproxy_cpe_cb/store.py:207 | `insert(i, x)` adds one element, and `x` is at `i` (or at the end when `i` is past it) |
| Lists.Repeat | modbusproxy_cpe_cb/store.py:33-34 | `n` copies of `x`, and none when `n` is not positive |
| Bridge.CheckRegisterType | modbusproxy_cpe_cb/store.py:28-31 | the type check fails, with `ParameterException`, exactly when the tag is not one of `hr`, `ir`, `di`, `co`; otherwise it names the type of that tag |
| Bridge.ReadFilterSelects | modbusproxy_cpe_cb/store.py:170-179 | the read query selects exactly the rows of this proxy, slave and type whose address lies in `[address, address + count)` when `count > 1`, and the one address otherwise |
| Bridge.WriteFilterSelects | modbusproxy_cpe_cb/store.py:227-233 | the write query selects exactly the row of this proxy, slave, type and address |
| Bridge.WriteFilterIsSingleRead | modbusproxy_cpe_cb/store.py:229-232 | the write query is the read query for one register at the same address |
| Bridge.InsertByAddress | modbusproxy_cpe_cb/store.py:180 | inserting a row into rows sorted by address keeps them sorted and adds exactly that row |
| Bridge.SortByAddress | modbusproxy_cpe_cb/store.py:180 | `sorted(rows, key=address)` is a permutation of the rows, sorted by address |
| Bridge.KeyedKeys | modbusproxy_cpe_cb/store.py:196-198 | the sparse branch's value and timestamp dicts have exactly the returned addresses as keys |
| Bridge.KeyedLastWins | modbusproxy_cpe_cb/store.py:196-198 | each address maps to the data and timestamp of the last row returned for it |
| Bridge.ListedFrom | modbusproxy_cpe_cb/store.py:200-214 | when the sequential branch returns, it returns lists |
| Bridge.ReadSpec | modbusproxy_cpe_cb/store.py:183-214 | a successful read returns dicts in a sparse context and lists otherwise |
| Bridge.ListedFromInPlace | modbusproxy_cpe_cb/store.py:203-214 | a register whose sorted row sits at the index equal to its address appends that row's data and timestamp |
| Bridge.ListedFromOutOfPlace | modbusproxy_cpe_cb/store.py:203-214 | a register whose row is out of place raises `ParameterException` without a fill, `ValueError` with a non-integer fill, and `KeyError` (the filler's missing timestamp) with an integer fill |
| Bridge.ListedFromAligned | modbusproxy_cpe_cb/store.py:202-214 | over rows aligned on the range, the sequential branch returns their data and timestamps in order |
| Bridge.ListedFromMisaligned | modbusproxy_cpe_cb/store.py:202-214 | over rows that are not aligned, the sequential branch always raises: `IndexError`, or the mismatch error of the fill when the rows reach far enough |
| Bridge.ListedReadAligned | modbusproxy_cpe_cb/store.py:199-214 | a read over aligned rows returns the data and timestamps of the requested window |
| Bridge.ListedRead | modbusproxy_cpe_cb/store.py:199-214 | the sequential branch succeeds exactly when the sorted rows are aligned on `[address, address + count)`; it then returns their window, and otherwise raises one of the two errors |
| Bridge.SequentialRead | modbusproxy_cpe_cb/store.py:180-214 | a sequential read succeeds exactly when the sorted rows are aligned on the range, returns their data and timestamps in order, and an integer fill never turns a gap into a value |
| Bridge.SequentialReadLength | modbusproxy_cpe_cb/store.py:199-214 | a successful sequential read returns exactly `count` values and `count` timestamps |
| Bridge.AddressSeq | modbusproxy_cpe_cb/store.py:196-198 | the addresses of the rows in row order, which is the insertion order of the sparse dicts |
| Bridge.SparseReadShape | modbusproxy_cpe_cb/store.py:183-198 | the sparse branch returns the keyed dicts of the sorted rows, whose keys are the addresses those rows list |
| Bridge.SparseRead | modbusproxy_cpe_cb/store.py:183-198 | a sparse read never raises, and its dicts hold exactly the returned addresses |
| Bridge.ReadCollectionData | modbusproxy_cpe_cb/store.py:156-215 | `read_collection_data` issues the read query and returns what `ReadSpec` gives for the returned rows, by both loops |
| Blocks.AsList | modbusproxy_cpe_cb/store.py:65-66 | a scalar is wrapped into a one-element list, and a list is kept |
| Blocks.MergeFrom | modbusproxy_cpe_cb/store.py:51-55 | the merge never changes the length of either cache |
| Blocks.MergeFromOutcome | modbusproxy_cpe_cb/store.py:51-55 | the merge fails with `IndexError` exactly when an absolute index it reaches is past the value cache, the returned timestamps or the timestamp cache; otherwise those indices hold the returned values and timestamps and nothing else changed |
| Blocks.AbsorbListed | modbusproxy_cpe_cb/store.py:45-56 | merging `n` returned values succeeds exactly when `n` is 0, or the request starts at absolute address 0 and both caches hold `n` entries; the result is the cache slice from `address - base` |
| Blocks.AbsorbRows | modbusproxy_cpe_cb/store.py:45-56 | the merge of a sequential read, in terms of the sorted rows: which reads succeed, the new caches, and the returned slice |
| Blocks.SequentialGetOutcome | modbusproxy_cpe_cb/store.py:36-56 | sequential `getValues` succeeds exactly when the rows are aligned and (for a non-empty read) the range starts at absolute 0 and fits both caches; the cache then starts with the rows' data and timestamps, the rest is unchanged, and the result is the clamped cache slice from `address - base` |
| Blocks.SequentialGetOffZero | modbusproxy_cpe_cb/store.py:52-54 | a non-empty sequential read that does not start at absolute address 0 always raises (the absolute-address indexing) |
| Blocks.SequentialGetLastRegister | modbusproxy_cpe_cb/store.py:33-34 | with one timestamp fewer than values, a read that reaches the last register raises |
| Blocks.SequentialGetReadFails | modbusproxy_cpe_cb/store.py:46-54 | a read the rows cannot answer leaves the caches unchanged and raises `IndexError` or `KeyError` (the filler's missing timestamp), the latter whenever the rows reach far enough |
| Blocks.WritesFromShape | modbusproxy_cpe_cb/store.py:69-70 | from loop index `i`, the `k`-th write sends the value at `i + k` to register `address + i + k` |
| Blocks.WriteFilterInjective | modbusproxy_cpe_cb/store.py:229-232 | two writes go to the same register exactly when they name the same address |
| Blocks.SequentialWrites | modbusproxy_cpe_cb/store.py:69-70 | sequential `setValues` issues `len(values) - 1 - address` writes (none for one value), the `k`-th to register `2 * address + k`; the last register is never written, nor the first unless `address` is 0 |
| Blocks.SingleWriteStaysLocal | modbusproxy_cpe_cb/store.py:69-70 | writing one value to a sequential block issues no write to the store |
| Blocks.SequentialReadZero | modbusproxy_cpe_cb/store.py:36-56 | a one-register read at absolute address 0 succeeds exactly when the first sorted row is at address 0, and then returns that row's data |
| Blocks.SequentialRoundTrip | modbusproxy_cpe_cb/store.py:36-70 | the sequential write-then-read, as written: the write reaches only the cache, never the store; off absolute address 0 the read back always raises (for any base, `SequentialGetOffZero`), and at address 0 it returns what the store holds, not the value written |
| Blocks.SequentialBlock.constructor | modbusproxy_cpe_cb/store.py:17-34 | the block holds its base and values and `len(values) - 1` empty timestamps, with no store call |
| Blocks.SequentialBlock.Create | modbusproxy_cpe_cb/store.py:26-31 | construction raises `ParameterException` exactly for a type outside `hr`, `ir`, `di`, `co`, and otherwise builds the block as above |
| Blocks.SequentialBlock.GetValues | modbusproxy_cpe_cb/store.py:36-56 | issues one read with the read query, and leaves the caches and returns the result that `Absorb` gives for the read (properties in `SequentialGetOutcome`) |
| Blocks.SequentialBlock.Merge | modbusproxy_cpe_cb/store.py:51-55 | the loop of `getValues` leaves the caches and the error `MergeFrom` describes |
| Blocks.SequentialBlock.SetValues | modbusproxy_cpe_cb/store.py:58-70 | the value cache is the slice assignment from `address - base`, timestamps are unchanged, and the writes of `WritesFrom` are appended (properties in `SequentialWrites`) |
| Blocks.SequentialBlock.GetTimestamps | modbusproxy_cpe_cb/store.py:72-82 | reads only the cache: at most `count` timestamps, and inside the cache exactly the slice from `address - base` |
| Blocks.Refresh | modbusproxy_cpe_cb/store.py:116-120 | after the merge, a key is present exactly when it was, or when it is one of the given keys and was returned; only those keys take the returned entry |
| Blocks.CachedRange | modbusproxy_cpe_cb/store.py:123 | reading `address .. address + count - 1` from a dict succeeds exactly when every one is a key, with `KeyError` otherwise, and returns them in order |
| Blocks.Pairs | modbusproxy_cpe_cb/store.py:132-142 | a dict payload is walked item by item; a list or scalar payload is walked as position `idx` at register `address + idx` |
| Blocks.PairWrites | modbusproxy_cpe_cb/store.py:136-142 | one write per pair, in order, at the pair's address with the pair's value |
| Blocks.RefreshKeepsKeys | modbusproxy_cpe_cb/store.py:116-120 | a sparse read never adds a register to the block |
| Blocks.StoreKeys | modbusproxy_cpe_cb/store.py:132-141 | after a sparse write the cache holds its old keys plus exactly the written addresses |
| Blocks.StoreLastWins | modbusproxy_cpe_cb/store.py:132-141 | each written address holds the value of its last pair |
| Blocks.StoreElsewhere | modbusproxy_cpe_cb/store.py:132-141 | registers no pair names keep their value |
| Blocks.SparseListWrite | modbusproxy_cpe_cb/store.py:138-142 | a list write sends exactly one write per value, the `k`-th to `address + k`, and that register then holds the value sent |
| Blocks.SparseMappingWrite | modbusproxy_cpe_cb/store.py:132-136 | a dict write sends exactly one write per item, and the address of the last item for it holds that item's value |
| Blocks.KeyedValuesFrom | modbusproxy_cpe_cb/store.py:196-198 | every key of the sparse values dict comes from a returned row with that address and data |
| Blocks.EchoesPermuted | modbusproxy_cpe_cb/store.py:180 | rows that echo the written values still echo them after `sorted` reorders them |
| Blocks.KeyedEcho | modbusproxy_cpe_cb/store.py:196-198 | when every returned row in the written range carries the written value, so does the dict built from them |
| Blocks.CachedRangeHolds | modbusproxy_cpe_cb/store.py:123 | a range whose every address holds the matching value reads back as exactly those values |
| Blocks.RefreshedEcho | modbusproxy_cpe_cb/store.py:116-123 | merging rows that echo the written values into a cache that holds them reads back the written values |
| Blocks.StoreListHolds | modbusproxy_cpe_cb/store.py:138-142 | after a list or scalar write, register `address + k` holds the `k`-th value |
| Blocks.SparseRoundTrip | modbusproxy_cpe_cb/store.py:105-142 | sparse write-then-read: after a list or scalar write, a read of the same range returns exactly the written values whenever the store echoes them, in any row order |
| Blocks.SparseBlock.constructor | modbusproxy_cpe_cb/store.py:86-103 | the block holds its values and a `None` timestamp for exactly each key, with no store call |
| Blocks.SparseBlock.Create | modbusproxy_cpe_cb/store.py:95-100 | construction raises `ParameterException` exactly for a type outside `hr`, `ir`, `di`, `co` |
| Blocks.SparseBlock.GetValues | modbusproxy_cpe_cb/store.py:105-123 | issues one read; values and timestamps are refreshed only at keys the block already has; the result is the cached range (or `KeyError`) |
| Blocks.SparseBlock.Merge | modbusproxy_cpe_cb/store.py:116-120 | the nested merge loop, walked in dict order, leaves the caches `Refresh` describes, whatever the order |
| Blocks.SparseBlock.SetValues | modbusproxy_cpe_cb/store.py:125-142 | the cache is updated pair by pair, timestamps are unchanged, and exactly one write per pair is appended, in order |
| Blocks.SparseBlock.GetTimestamps | modbusproxy_cpe_cb/store.py:144-153 | reads only the cache: succeeds exactly when every register of the range has an entry, and returns them in order |
| Template.NewDescriptor | modbusproxy_cpe_cb/context.py:225-239 | a new descriptor has the given id and address, no type, and block size 1 |
| Template.IdentityField | modbusproxy_cpe_cb/context.py:74-85 | a tag that sets an identity field starts with `V`, `P` or `M` (the initials of the six field names), so a `sparse` tag in any letter case never sets one |
| Template.IdentityTag | modbusproxy_cpe_cb/context.py:73-87 | a device-line tag fails only with `ValueError` and never changes the slave id or zero mode |
| Template.IdentityTags | modbusproxy_cpe_cb/context.py:72-87 | a device line fails only with `ValueError` (its full effect is `IdentityTagsEffect`) |
| Template.SetField | modbusproxy_cpe_cb/context.py:74-85 | assigning one identity field changes that field and no other |
| Template.NamedFieldExactly | modbusproxy_cpe_cb/context.py:74-85 | a tag names a field exactly when it starts with that field's name: no tag starts with two of the six names, so the order of the `elif` chain never decides which field is set |
| Template.IdentityFieldEffect | modbusproxy_cpe_cb/context.py:74-85 | a tag sets an identity field exactly when it starts with one of the six names; that field takes the stripped text after the name and one more character, and the other five keep their values |
| Template.IdentityTagEffect | modbusproxy_cpe_cb/context.py:73-87 | one device-line tag: a field name sets that field as above and leaves the sparse flag alone; no tag changes the slave id or zero mode |
| Template.IdentityTagsFieldAfter | modbusproxy_cpe_cb/context.py:72-85 | after a device line, each field holds the value the tags give it one after the other, each naming tag overwriting the previous one |
| Template.FieldAfterUnnamed | modbusproxy_cpe_cb/context.py:74-85 | tags that do not name a field leave its value alone |
| Template.FieldAfterLast | modbusproxy_cpe_cb/context.py:74-85 | the last tag naming a field decides its value, whatever came before |
| Template.IdentityTagsHeader | modbusproxy_cpe_cb/context.py:72-87 | a device line never changes the slave id or zero mode |
| Template.IdentityTagsLast | modbusproxy_cpe_cb/context.py:72-85 | after a device line, a field holds the stripped value of the last tag naming it |
| Template.IdentityTagsUnnamed | modbusproxy_cpe_cb/context.py:72-85 | a field that no tag of the line names keeps its value |
| Template.IdentityTagsEffect | modbusproxy_cpe_cb/context.py:72-87 | the whole effect of a successful device line: each of the six fields takes `strip()` of the text after its name and one more character, from the last tag naming it; a field no tag names is kept; slave id and zero mode are unchanged |
| Template.NetworkTag | modbusproxy_cpe_cb/context.py:90-99 | a `deviceId` tag fails only with `ValueError` and never changes the identity or the sparse flag |
| Template.NetworkTags | modbusproxy_cpe_cb/context.py:89-99 | a `deviceId` line fails only with `ValueError` |
| Template.TypeToken | modbusproxy_cpe_cb/context.py:134-153 | `holding`→hr, `analog`→ir, `input`→di, `coil`→co, each in both directions; any other token names no type |
| Template.WithAddress | modbusproxy_cpe_cb/context.py:126-128 | every descriptor of the current id gets the address, and the others are unchanged |
| Template.WithType | modbusproxy_cpe_cb/context.py:137-151 | every descriptor of the current id gets the type, and the others are unchanged |
| Template.RegisterTag | modbusproxy_cpe_cb/context.py:110-153 | a register tag fails only with `ValueError` |
| Template.RegisterTags | modbusproxy_cpe_cb/context.py:107-153 | a register line fails only with `ValueError` |
| Template.ParseLine | modbusproxy_cpe_cb/context.py:70-153 | a template line fails only with `ValueError` |
| Template.ParseLines | modbusproxy_cpe_cb/context.py:66-153 | the template fails only with `ValueError` |
| Template.ParamIdStepKeeps | modbusproxy_cpe_cb/context.py:111-119 | a `paramId` tag keeps the ids unique and the addresses in range |
| Template.AddressStepKeeps | modbusproxy_cpe_cb/context.py:120-133 | an `address` tag keeps the ids unique and the addresses in range |
| Template.TypeStepKeeps | modbusproxy_cpe_cb/context.py:134-153 | a `registerType` tag keeps the ids unique and the addresses in range |
| Template.RegisterTagKeeps | modbusproxy_cpe_cb/context.py:110-153 | no register tag introduces a second descriptor with the same id, or an address outside `[0, 99999]` |
| Template.RegisterTagsKeep | modbusproxy_cpe_cb/context.py:110-153 | a whole register line keeps that invariant |
| Template.ParseLineKeeps | modbusproxy_cpe_cb/context.py:70-153 | any template line keeps that invariant |
| Template.ParseLinesKeep | modbusproxy_cpe_cb/context.py:111-133 | lines sharing a `paramId` merge: a parse never holds two descriptors with the same non-null id, and every address lies in `[0, 99999]` |
| Template.RegisterTagDispatch | modbusproxy_cpe_cb/context.py:111-134 | each register tag is handled by its own branch: `paramId`, then `address`, then `registerType` |
| Template.RegisterPrefixes | modbusproxy_cpe_cb/constants.py:41-48 | no tag starts with two of the three register tag names |
| Template.AddressStepEffect | modbusproxy_cpe_cb/context.py:120-133 | `address=` stores the number, plus 1 when not in zero mode at that point, in the current id's descriptors, and adds its own descriptor when the line has none; a result outside `[0, 99999]` changes nothing |
| Template.ParamIdStepEffect | modbusproxy_cpe_cb/context.py:111-119 | after `paramId=` the id is current; the list gains a descriptor exactly when it had none with that id and the line had none yet, and the earlier descriptors are kept |
| Template.SecondParamIdIgnored | modbusproxy_cpe_cb/context.py:111-119 | a second `paramId` on one line becomes current but gets no descriptor, so the line's later tags set nothing for it |
| Template.TypeStepEffect | modbusproxy_cpe_cb/context.py:134-153 | `registerType=` sets the type of the current id's descriptors for the four known tokens, and any other token changes nothing |
| Template.NetworkIdTagEffect | modbusproxy_cpe_cb/context.py:91-96 | a `networkId=` tag fails exactly when its stripped number is malformed; a value in `[1, 254]` becomes the slave id, and any other keeps the header |
| Template.PlcBaseTagEffect | modbusproxy_cpe_cb/context.py:97-99 | a `plcBaseAddress=` tag fails exactly when its number is malformed; otherwise zero mode is off exactly when the number is 1, and nothing else changes |
| Template.NetworkTagEffect | modbusproxy_cpe_cb/context.py:91-99 | `networkId` in `[1, 254]` overwrites the slave id, and any other value keeps it; `plcBaseAddress == 1` turns zero mode off, and any other number turns it on; only a malformed number fails |
| Template.SparseTagEffect | modbusproxy_cpe_cb/context.py:86-87 | `sparse=` in any letter case sets sparse mode exactly when its number is not 0 |
| Template.BucketOf | modbusproxy_cpe_cb/context.py:162-182 | a descriptor goes to its own bucket for hr, ir and di, and to the coil bucket for coils and for a missing type |
| Template.BucketMembers | modbusproxy_cpe_cb/context.py:162-182 | a bucket holds the address of every descriptor sorted into it, and nothing else |
| Template.BucketSizes | modbusproxy_cpe_cb/context.py:162-182 | the four buckets share out the descriptors: each goes to exactly one |
| Template.ZeroMapShape | modbusproxy_cpe_cb/context.py:164-180 | the sparse dict of a bucket has exactly the bucket's addresses as keys, each with value 0 |
| Template.SparseLayoutShape | modbusproxy_cpe_cb/context.py:203-206 | a sparse block has exactly the bucket's addresses, `None` included, as keys, all 0; an empty bucket gives no block |
| Template.InsertInt | modbusproxy_cpe_cb/context.py:218 | inserting into a sorted list keeps it sorted and adds exactly that element |
| Template.SortInts | modbusproxy_cpe_cb/context.py:218 | `block.sort()` gives a sorted permutation |
| Template.Unwrap | modbusproxy_cpe_cb/context.py:218 | the addresses of a bucket without `None`, position by position |
| Template.SortedEnds | modbusproxy_cpe_cb/context.py:220-221 | the first sorted element is the minimum and the last the maximum, both elements of the list |
| Template.BucketEnds | modbusproxy_cpe_cb/context.py:218-221 | the sorted ends are addresses of the bucket and bound every address in it |
| Template.SequentialLayoutShape | modbusproxy_cpe_cb/context.py:217-223 | a sequential block starts at the minimum address and holds `max - min` zeros, leaving out the register at the maximum address; an empty bucket gives no block, and a `None` address raises `TypeError` |
| Template.SequentialLayoutBounds | modbusproxy_cpe_cb/context.py:217-221 | the base is an address of the bucket, and every address lies in `[base, base + len]` |
| Template.SequentialLayoutTop | modbusproxy_cpe_cb/context.py:221 | `base + len` is an address of the bucket (its maximum), so that register lies outside the block |
| Template.LayoutOf | modbusproxy_cpe_cb/context.py:183-192 | building one block fails only with `TypeError` |
| Template.Layouts | modbusproxy_cpe_cb/context.py:183-192 | building the blocks gives one layout for each of the four types, or fails with `TypeError` |
| Template.LayoutOfFails | modbusproxy_cpe_cb/context.py:217-221 | one block fails exactly when it is sequential and its bucket holds `None` |
| Template.LayoutsFail | modbusproxy_cpe_cb/context.py:167-192 | building the blocks fails, with `TypeError`, exactly when the context is sequential and some descriptor has no address |
| Template.LayoutsErrBuckets | modbusproxy_cpe_cb/context.py:188-192 | the blocks fail exactly when the context is sequential and one of the four buckets holds `None` |
| Template.NoneInBuckets | modbusproxy_cpe_cb/context.py:162-182 | some bucket holds `None` exactly when some descriptor has no address |
| Template.SequentialLayoutExample | modbusproxy_cpe_cb/context.py:217-221 | addresses 5, 9, 7 give base 5 and four zeros, so register 9 is left out |
| Template.SparseLayoutExample | modbusproxy_cpe_cb/context.py:203-204 | the same addresses in a sparse block give exactly those three keys |
| Context.ConfigSpec | modbusproxy_cpe_cb/context.py:66-192 | parsing a template fails only with `ValueError` (a malformed number) or `TypeError` (a missing address in a sequential block), and otherwise gives a layout for all four types |
| Context.SlaveSpec | modbusproxy_cpe_cb/context.py:50-63 | constructing a slave context fails only with `ValueError` or `TypeError` |
| Context.SlaveContext.constructor | modbusproxy_cpe_cb/context.py:50-59 | the fields `__init__` sets before it parses the template |
| Context.SlaveContext.Build | modbusproxy_cpe_cb/context.py:35-63 | construction succeeds exactly when `SlaveSpec` does, with its error otherwise, and the new context is in the state `SlaveSpec` describes: header, four owned blocks, untouched caches |
| Context.SlaveContext.ParseConfig | modbusproxy_cpe_cb/context.py:66-192 | `_parse_config` fails exactly when `ConfigSpec` does, with its error; otherwise the header fields and the four blocks are the ones `ConfigSpec` gives |
| Context.SlaveContext.ParseTemplate | modbusproxy_cpe_cb/context.py:68-153 | the loop over the lines leaves the header fields and returns the descriptors `ParseLines` gives, or its error |
| Context.SlaveContext.ParseTemplateLine | modbusproxy_cpe_cb/context.py:70-153 | one line advances the parse exactly as `ParseLines` does |
| Context.SlaveContext.ParseDeviceLine | modbusproxy_cpe_cb/context.py:71-87 | the tag loop of a device line sets identity and sparse as `IdentityTags` gives them, or fails with its error |
| Context.SlaveContext.ParseNetworkLine | modbusproxy_cpe_cb/context.py:88-99 | the tag loop of a `deviceId` line sets the slave id and zero mode as `NetworkTags` gives them, or fails with its error |
| Context.SlaveContext.ParseRegisterLine | modbusproxy_cpe_cb/context.py:105-153 | the tag loop of a `paramId` line returns the descriptors `RegisterTags` gives, or its error |
| Context.SlaveContext.SortIntoBuckets | modbusproxy_cpe_cb/context.py:154-182 | the bucketing loop fills the lists (sequential) or the zero dicts (sparse) with exactly the four buckets |
| Context.SlaveContext.BuildStore | modbusproxy_cpe_cb/context.py:154-192 | the blocks are built exactly when `Layouts` succeeds, with its error otherwise, and the store holds the four blocks it describes |
| Context.SlaveContext.Install | modbusproxy_cpe_cb/context.py:184-192 | the store maps h, i, d, c to the four blocks, each owned by this context and in its initial state |
| Context.SlaveContext.SetupBlock | modbusproxy_cpe_cb/context.py:183-192 | a block is set up from its bucket exactly when `LayoutOf` succeeds, and is fresh and in the layout's initial state |
| Context.SlaveContext.SetupSparseBlock | modbusproxy_cpe_cb/context.py:194-206 | a sparse block with the dict and empty timestamps when the dict is not empty, and no block otherwise |
| Context.SlaveContext.SetupSequentialBlock | modbusproxy_cpe_cb/context.py:208-223 | the sequential block `SequentialLayoutOf` describes, no block for an empty list, and `TypeError` for a missing address |
| Context.SlaveContext.Validate | modbusproxy_cpe_cb/context.py:252-264 | the block's range check on the address (plus 1 when zero mode is off): a sequential block accepts exactly the ranges inside `[base, base + len)`, a sparse block exactly the non-empty ranges whose every address is a key; a missing block raises `AttributeError` |
| Context.SlaveContext.GetValues | modbusproxy_cpe_cb/context.py:266-278 | the shifted address is passed to the block's `getValues`, with exactly the effect that block's contract states; a missing block raises `AttributeError` |
| Context.SlaveContext.SetValues | modbusproxy_cpe_cb/context.py:280-291 | a scalar raises `TypeError` and changes nothing; otherwise the shifted address is passed to the block's `setValues`; a missing block raises `AttributeError` |
| Context.SlaveContext.Reset | modbusproxy_cpe_cb/context.py:247-250 | `reset` changes neither the context nor its blocks |
| Context.BucketStep | modbusproxy_cpe_cb/context.py:162-182 | one more descriptor extends the list and the dict of its own bucket only |
| Context.ValidatedSparseRead | modbusproxy_cpe_cb/context.py:264-278 | a sparse read of a range that validates never raises `KeyError` |
| Context.BuildFailure | modbusproxy_cpe_cb/context.py:339 | a row's context fails to build exactly when `SlaveSpec` fails for it |
| Context.AdmitIds | modbusproxy_cpe_cb/context.py:335-342 | a successful initialisation parsed every row's slave id, and its key set is exactly the distinct slave ids of the rows |
| Context.AdmitFirstWins | modbusproxy_cpe_cb/context.py:335-342 | the first row with a slave id is the one kept for it, and every context kept was built without error |
| Context.AdmitSucceeds | modbusproxy_cpe_cb/context.py:335-342 | when every id parses and the first row of each id builds, the initialisation succeeds |
| Context.ServerContext.constructor | modbusproxy_cpe_cb/context.py:299-309 | the server starts with no slave contexts |
| Context.ServerContext.InitializeSlaves | modbusproxy_cpe_cb/context.py:322-342 | `_initialize_slaves` fails exactly when `Slaves` does, with its error; otherwise it holds a context for exactly the ids `Slaves` keeps, each built from that id's first row |
| Context.ServerContext.AdmitRow | modbusproxy_cpe_cb/context.py:335-342 | one loop turn advances the initialisation exactly as `Admit` does |
| Context.ServerContext.AddSlave | modbusproxy_cpe_cb/context.py:337-339 | adding an unseen id fails exactly when that row's context fails to build, and otherwise keeps every context built from its row |
| Context.ServerContext.Insert | modbusproxy_cpe_cb/context.py:339 | `self[slave_id] = context`: the map gains exactly that entry |
| Context.BuiltFromRows | modbusproxy_cpe_cb/context.py:339 | adding a context built from its row keeps every context built from its row |

## Left out

- The ClearBlade store: `Collection`, `Query`, `getItems` and `updateItems` are not modelled. A read takes the rows the store returned as a parameter. A write is recorded as an `UpdateItems` call in the block's ghost `calls` log, and a read as a `GetItems` call.
- Reading the configuration collection in `_initialize_slaves` (context.py:324-334) is left out, including its query on `ip_address` or a non-empty `slave_id`. The rows are given to `InitializeSlaves`.
- Logging (warnings, errors, debug lines) is not modelled. A template value that is logged and skipped is modelled as skipped.
- pymodbus is not part of this model. `decode(fx)` is replaced by the register type itself. The blocks' range checks, `SequentialBlock.Validate` and `SparseBlock.Validate`, follow pymodbus's documented sequential and sparse range checks. `ModbusDeviceIdentification` is reduced to the six identity fields the template sets.
- The pymodbus base constructor that `CbModbusSequentialDataBlock.__init__` calls (store.py:26) reads `values[0]`. A sequential bucket whose smallest and largest addresses are equal gets `values=[]` (context.py:221), so the real constructor raises `IndexError`. The model builds an empty sequential block there instead (`SequentialLayoutOf`, `Blocks.SequentialBlock.constructor`).
- The key check of pymodbus's `ModbusServerContext.__setitem__` is left out. In pymodbus 1.x and 2.x it raises `NoSuchSlaveException` for a slave id outside `0 .. 0xf7`. `Context.ServerContext.Insert` admits any integer id instead, so a row whose id is out of that range is kept rather than aborting `_initialize_slaves`.
- `config_file.splitlines()` is not modelled. The template is given as its sequence of lines.
- Python's `int()` is modelled on ASCII decimal digits with an optional sign and surrounding whitespace. Whitespace is the ASCII set Python's `str.strip()` uses: space, tab, line feed, vertical tab, form feed, carriage return and U+001C to U+001F. Underscores, non-ASCII digits and non-ASCII whitespace (U+0085, U+00A0 and the like) are left out. `lower()` is modelled on ASCII letters.
- Request addresses and counts are natural numbers. Negative Modbus addresses cannot occur on the wire.
- `_RegisterBlockConfig.block_size` is always 1 and unused by the code. It is kept as a field only.
- The unused slave-context fields are left out: the ClearBlade system, auth, collection name and logger.
- Concurrency is not modelled. The source has no locking and handles one request at a time in this layer.
- Blocks.SequentialBlock.SetValues: requires a list or scalar payload. A dict would be wrapped into a one-element list holding the dict and slice-assigned into the integer cache, and integer lists cannot express that.
- Context.SlaveContext.SetValues: requires that a dict payload not go to a sequential block, for the same reason.
- Blocks.SequentialBlock.GetValues: requires a non-sparse owning context. Blocks.SparseBlock.GetValues requires a sparse one. The slave context builds every block in its own mode, so the other combination cannot arise.
- Blocks.SequentialBlock.GetTimestamps: the contract states the slice only for a range inside the cache. Outside it, the body follows Python's clamping of negative and oversized bounds.
- Bridge.SortByAddress: the contract states a sorted permutation but not stability. The insertion places each row after the rows with an equal address, so it is stable like `sorted`, but that is not stated.
- Context.ServerContext.InitializeSlaves: each kept context is stated to be built from its row (`FromRow`: its recorded state is what `SlaveSpec` gives for the row). That its fields and blocks are still in that state is stated by `Context.SlaveContext.Build` at construction, and not carried through the server's loop.
- The in-place `block.sort()` of `_setup_sequential_block` is not modelled as an update of the caller's list. The model sorts a copy, because the list is not used again.
