/** The proxy's Modbus contexts of context.py: a slave context per remote
    unit, configured from its template and holding one register block per
    register type, and the server context holding the slave contexts of
    the configuration rows, keyed by slave id. */
module Context {
  import opened Base
  import opened Text
  import opened Lists
  import opened Bridge
  import opened Blocks
  import opened Template

  // ---------- specification of a slave's configuration ----------

  /** One row of the configuration collection: `ip_address`, `ip_port`,
      `slave_id` and the lines of `config_file`. */
  datatype ConfigRow = ConfigRow(ip: string, port: string, slaveId: string, template: seq<string>)

  /** What a template yields: the context's settings and the layout of each
      register type's block. */
  datatype Config = Config(header: Header, layouts: map<RegType, Layout>)

  /** `_parse_config` from the settings `h`: the lines, then the buckets. */
  function ConfigSpec(h: Header, lines: seq<string>): (r: Result<Config>)
    ensures r.Err? ==> r.error == ValueError || r.error == TypeError
    ensures r.Ok? ==> r.value.layouts.Keys == {HoldingRegister, InputRegister, DiscreteInput, Coil}
  {
    var p :- ParseLines(Parse(h, []), lines);
    var l :- Layouts(p.registers, p.header.sparse);
    Ok(Config(p.header, l))
  }

  /** Once the lines parse, the configuration is the layouts of what they collected. */
  lemma ConfigSpecParsed(h: Header, lines: seq<string>, p: Parse)
    requires ParseLines(Parse(h, []), lines) == Ok(p)
    ensures var l := Layouts(p.registers, p.header.sparse);
      ConfigSpec(h, lines) == if l.Err? then Err(l.error) else Ok(Config(p.header, l.value))
  { }

  /** The state a slave context is built into. */
  datatype SlaveState = SlaveState(port: int, config: Config)

  /** A slave context's constructor: the port and the slave id are parsed,
      the context starts in zero mode, not sparse, with empty identity
      fields, and then the template is parsed. */
  function SlaveSpec(row: ConfigRow): (r: Result<SlaveState>)
    ensures r.Err? ==> r.error == ValueError || r.error == TypeError
  {
    var port :- ParseInt(row.port);
    var id :- ParseInt(row.slaveId);
    var c :- ConfigSpec(Header(DefaultIdentity, false, id, true), row.template);
    Ok(SlaveState(port, c))
  }

  /** `SlaveSpec` step by step: the port, then the slave id, then the template. */
  lemma SlaveSpecSteps(row: ConfigRow)
    ensures var port, id := ParseInt(row.port), ParseInt(row.slaveId);
      SlaveSpec(row) ==
        if port.Err? then Err(port.error)
        else if id.Err? then Err(id.error)
        else var c := ConfigSpec(Header(DefaultIdentity, false, id.value, true), row.template);
          if c.Err? then Err(c.error) else Ok(SlaveState(port.value, c.value))
  { }

  // ---------- the blocks of a slave context ----------

  /** An entry of the context's `store`: `None` or one of the two blocks. */
  datatype Block = NoBlock | Sequential(sq: SequentialBlock) | Sparse(sp: SparseBlock)

  function Objects(b: Block): set<object> {
    match b
    case NoBlock => {}
    case Sequential(s) => {s}
    case Sparse(s) => {s}
  }

  function Obj(b: Block): object
    requires !b.NoBlock?
  {
    match b
    case Sequential(s) => s
    case Sparse(s) => s
  }

  /** A block belongs to context `o` as its block of type `t`: sequential
      blocks in a sequential context and sparse ones in a sparse context. */
  predicate Owned(b: Block, o: Origin, t: RegType) {
    match b
    case NoBlock => true
    case Sequential(s) => s.origin == o && s.registerType == t && !o.sparse
    case Sparse(s) => s.origin == o && s.registerType == t && o.sparse
  }

  /** A block as `_setup_sparse_block` or `_setup_sequential_block` builds
      it from a layout: the layout's values, no timestamps yet, no calls. */
  ghost predicate Initial(b: Block, l: Layout)
    reads Objects(b)
  {
    match l
    case Absent => b.NoBlock?
    case SparseLayout(zeros) =>
      && b.Sparse? && b.sp.values == zeros && b.sp.timestamps.Keys == zeros.Keys
      && (forall k :: k in b.sp.timestamps ==> b.sp.timestamps[k] == None)
      && b.sp.calls == []
    case SequentialLayout(base, cells) =>
      && b.Sequential? && b.sq.base == base && b.sq.values == cells
      && b.sq.timestamps == Repeat(None, |cells| - 1) && b.sq.calls == []
  }

  const RegTypes := {HoldingRegister, InputRegister, DiscreteInput, Coil}

  // ---------- the slave context ----------

  /** `ClearBladeModbusProxySlaveContext`. */
  class SlaveContext {
    const ip: string
    const port: int
    var identity: Identity
    var sparse: bool
    var slaveId: int
    var zeroMode: bool
    var store: map<RegType, Block>
    /** The configuration row the context was built from, and what that
        row's configuration describes. */
    ghost const row: ConfigRow
    ghost const state: SlaveState

    /** The settings a template changes. */
    function HeaderOf(): Header
      reads this
    {
      Header(identity, sparse, slaveId, zeroMode)
    }

    function StoreObjects(): set<object>
      reads this
    {
      set t | t in store && !store[t].NoBlock? :: Obj(store[t])
    }

    /** The store has the four register types, each block owned by this context. */
    predicate Valid()
      reads this
    {
      && (forall t: RegType :: t in store)
      && forall t :: t in store ==> Owned(store[t], Origin(ip, slaveId, sparse), t)
    }

    /** The store holds the blocks the layouts describe, still untouched. */
    ghost predicate Stored(layouts: map<RegType, Layout>)
      reads this, StoreObjects()
    {
      && store.Keys == layouts.Keys
      && forall t :: t in store ==> Initial(store[t], layouts[t])
    }

    /** The context's state is the one `SlaveSpec` gives for its row. */
    ghost predicate FromRow() {
      Ok(state) == SlaveSpec(row)
    }

    /** The context is in the state `state` describes. */
    ghost predicate Built()
      reads this, StoreObjects()
    {
      && Valid()
      && port == state.port
      && HeaderOf() == state.config.header
      && Stored(state.config.layouts)
    }

    /** The fields `__init__` sets before it parses the template. */
    constructor (row: ConfigRow, port: int, slaveId: int, ghost state: SlaveState)
      ensures this.row == row && this.state == state
      ensures ip == row.ip && this.port == port && this.slaveId == slaveId
      ensures identity == DefaultIdentity && !sparse && zeroMode && store == map[]
    {
      this.row := row;
      this.state := state;
      ip := row.ip;
      this.port := port;
      this.slaveId := slaveId;
      identity := DefaultIdentity;
      sparse := false;
      zeroMode := true;
      store := map[];
    }

    /** `__init__(server_context, config)`: a context for the row, or the
        exception that aborts its construction. */
    static method Build(row: ConfigRow) returns (r: Result<SlaveContext>)
      ensures r.Ok? <==> SlaveSpec(row).Ok?
      ensures r.Err? ==> r.error == SlaveSpec(row).error
      ensures r.Ok? ==> fresh(r.value) && r.value.row == row && r.value.FromRow() && r.value.Built()
    {
      SlaveSpecSteps(row);
      var port := ParseInt(row.port);
      if port.Err? {
        return Err(port.error);
      }
      var id := ParseInt(row.slaveId);
      if id.Err? {
        return Err(id.error);
      }
      ghost var st := if SlaveSpec(row).Ok? then SlaveSpec(row).value
        else SlaveState(port.value, Config(Header(DefaultIdentity, false, id.value, true), map[]));
      var c := new SlaveContext(row, port.value, id.value, st);
      var e := c.ParseConfig(row.template);
      if e.Some? {
        return Err(e.value);
      }
      return Ok(c);
    }

    /** `_parse_config(config_file)` on the lines of the template. */
    method ParseConfig(lines: seq<string>) returns (e: Option<Exception>)
      modifies this`identity, this`sparse, this`slaveId, this`zeroMode, this`store
      ensures var c := ConfigSpec(old(HeaderOf()), lines);
        && (e.None? <==> c.Ok?)
        && (e.Some? ==> e.value == c.error)
        && (c.Ok? ==> HeaderOf() == c.value.header && Valid() && Stored(c.value.layouts))
    {
      ghost var h0 := HeaderOf();
      var registers;
      registers, e := ParseTemplate(lines);
      if e.Some? {
        return;
      }
      ConfigSpecParsed(h0, lines, Parse(HeaderOf(), registers));
      e := BuildStore(registers);
    }

    /** The loop over the template lines: the header fields are updated as
        the lines go, and the register descriptors are collected. */
    method ParseTemplate(lines: seq<string>) returns (registers: seq<Descriptor>, e: Option<Exception>)
      modifies this`identity, this`sparse, this`slaveId, this`zeroMode
      ensures var r := ParseLines(Parse(old(HeaderOf()), []), lines);
        && (e.None? <==> r.Ok?)
        && (e.Some? ==> e.value == r.error)
        && (r.Ok? ==> r.value == Parse(HeaderOf(), registers))
    {
      registers := [];
      var i := 0;
      while i < |lines|
        invariant 0 <= i <= |lines|
        invariant ParseLines(Parse(old(HeaderOf()), []), lines) == ParseLines(Parse(HeaderOf(), registers), lines[i..])
      {
        registers, e := ParseTemplateLine(lines, i, registers);
        if e.Some? {
          return;
        }
        i := i + 1;
      }
      e := None;
    }

    /** Line `i` of the template, by its kind: an error ends the parse,
        otherwise the rest of the lines are parsed from the new state. */
    method ParseTemplateLine(lines: seq<string>, i: nat, registers: seq<Descriptor>) returns (regs: seq<Descriptor>, e: Option<Exception>)
      requires i < |lines|
      modifies this`identity, this`sparse, this`slaveId, this`zeroMode
      ensures var r := ParseLines(Parse(old(HeaderOf()), registers), lines[i..]);
        && (e.Some? ==> r == Err(e.value))
        && (e.None? ==> r == ParseLines(Parse(HeaderOf(), regs), lines[i + 1..]))
    {
      ParseLinesStep(Parse(HeaderOf(), registers), lines, i);
      var line := lines[i];
      regs := registers;
      e := None;
      if StartsWith(line, DeviceLine) {
        e := ParseDeviceLine(line);
      } else if StartsWith(line, NetworkLine) {
        e := ParseNetworkLine(line);
      } else if StartsWith(line, RegisterLine) {
        var r := ParseRegisterLine(line, registers);
        if r.Err? {
          return registers, Some(r.error);
        }
        regs := r.value;
      }
    }

    /** The tags of a device line, in order. */
    method ParseDeviceLine(line: string) returns (e: Option<Exception>)
      modifies this`identity, this`sparse
      ensures var h := IdentityTags(old(HeaderOf()), Split(line, Separator));
        && (e.None? <==> h.Ok?)
        && (e.Some? ==> e.value == h.error)
        && (h.Ok? ==> HeaderOf() == h.value)
    {
      var tags := Split(line, Separator);
      var i := 0;
      while i < |tags|
        invariant 0 <= i <= |tags|
        invariant IdentityTags(old(HeaderOf()), tags) == IdentityTags(HeaderOf(), tags[i..])
      {
        assert tags[i..][1..] == tags[i + 1..];
        IdentityTagsCons(HeaderOf(), tags[i..]);
        var h := IdentityTag(HeaderOf(), tags[i]);
        if h.Err? {
          return Some(h.error);
        }
        identity, sparse := h.value.identity, h.value.sparse;
        i := i + 1;
      }
      return None;
    }

    /** The tags of a `deviceId` line, in order. */
    method ParseNetworkLine(line: string) returns (e: Option<Exception>)
      modifies this`slaveId, this`zeroMode
      ensures var h := NetworkTags(old(HeaderOf()), Split(line, Separator));
        && (e.None? <==> h.Ok?)
        && (e.Some? ==> e.value == h.error)
        && (h.Ok? ==> HeaderOf() == h.value)
    {
      var tags := Split(line, Separator);
      var i := 0;
      while i < |tags|
        invariant 0 <= i <= |tags|
        invariant NetworkTags(old(HeaderOf()), tags) == NetworkTags(HeaderOf(), tags[i..])
      {
        assert tags[i..][1..] == tags[i + 1..];
        NetworkTagsCons(HeaderOf(), tags[i..]);
        var h := NetworkTag(HeaderOf(), tags[i]);
        if h.Err? {
          return Some(h.error);
        }
        slaveId, zeroMode := h.value.slaveId, h.value.zeroMode;
        i := i + 1;
      }
      return None;
    }

    /** The tags of a `paramId` line, in order, with the line's own
        `reg_exists` and `this_reg`. */
    method ParseRegisterLine(line: string, registers: seq<Descriptor>) returns (r: Result<seq<Descriptor>>)
      ensures var p := RegisterTags(zeroMode, RegLine(registers, false, None), Split(line, Separator));
        && (r.Ok? <==> p.Ok?)
        && (r.Err? ==> r.error == p.error)
        && (r.Ok? ==> r.value == p.value.registers)
    {
      var tags := Split(line, Separator);
      var regs, known, current := registers, false, None;
      var i := 0;
      while i < |tags|
        invariant 0 <= i <= |tags|
        invariant RegisterTags(zeroMode, RegLine(registers, false, None), tags)
               == RegisterTags(zeroMode, RegLine(regs, known, current), tags[i..])
      {
        assert tags[i..][1..] == tags[i + 1..];
        var step := RegisterTag(zeroMode, RegLine(regs, known, current), tags[i]);
        if step.Err? {
          return Err(step.error);
        }
        regs, known, current := step.value.registers, step.value.known, step.value.current;
        i := i + 1;
      }
      return Ok(regs);
    }

    /** The bucketing loop: each descriptor's address goes to the dict (in
        a sparse context) or the list (otherwise) of its bucket. */
    method SortIntoBuckets(registers: seq<Descriptor>)
      returns (hr: seq<Option<int>>, ir: seq<Option<int>>, di: seq<Option<int>>, co: seq<Option<int>>,
               hrMap: map<Option<int>, int>, irMap: map<Option<int>, int>, diMap: map<Option<int>, int>, coMap: map<Option<int>, int>)
      ensures !sparse ==> hr == Bucket(registers, HoldingRegister) && ir == Bucket(registers, InputRegister)
      ensures !sparse ==> di == Bucket(registers, DiscreteInput) && co == Bucket(registers, Coil)
      ensures sparse ==> hrMap == ZeroMap(Bucket(registers, HoldingRegister)) && irMap == ZeroMap(Bucket(registers, InputRegister))
      ensures sparse ==> diMap == ZeroMap(Bucket(registers, DiscreteInput)) && coMap == ZeroMap(Bucket(registers, Coil))
    {
      hr, ir, di, co := [], [], [], [];
      hrMap, irMap, diMap, coMap := map[], map[], map[], map[];
      for i := 0 to |registers|
        invariant !sparse ==> hr == Bucket(registers[..i], HoldingRegister) && ir == Bucket(registers[..i], InputRegister)
        invariant !sparse ==> di == Bucket(registers[..i], DiscreteInput) && co == Bucket(registers[..i], Coil)
        invariant sparse ==> hrMap == ZeroMap(Bucket(registers[..i], HoldingRegister)) && irMap == ZeroMap(Bucket(registers[..i], InputRegister))
        invariant sparse ==> diMap == ZeroMap(Bucket(registers[..i], DiscreteInput)) && coMap == ZeroMap(Bucket(registers[..i], Coil))
      {
        var reg := registers[i];
        BucketStep(registers, i);
        if reg.registerType == Some(HoldingRegister) {
          if sparse {
            hrMap := hrMap[reg.address := 0];
          } else {
            hr := hr + [reg.address];
          }
        } else if reg.registerType == Some(InputRegister) {
          if sparse {
            irMap := irMap[reg.address := 0];
          } else {
            ir := ir + [reg.address];
          }
        } else if reg.registerType == Some(DiscreteInput) {
          if sparse {
            diMap := diMap[reg.address := 0];
          } else {
            di := di + [reg.address];
          }
        } else {
          if sparse {
            coMap := coMap[reg.address := 0];
          } else {
            co := co + [reg.address];
          }
        }
      }
      assert registers[..|registers|] == registers;
    }

    /** The bucketing loop and the setup of the four blocks. */
    method BuildStore(registers: seq<Descriptor>) returns (e: Option<Exception>)
      modifies this`store
      ensures e.None? <==> Layouts(registers, sparse).Ok?
      ensures e.Some? ==> e.value == Layouts(registers, sparse).error
      ensures Layouts(registers, sparse).Ok? ==> Valid()
      ensures Layouts(registers, sparse).Ok? ==> Stored(Layouts(registers, sparse).value)
    {
      LayoutsSteps(registers, sparse);
      var hr, ir, di, co, hrMap, irMap, diMap, coMap := SortIntoBuckets(registers);
      var o := Origin(ip, slaveId, sparse);
      var h := SetupBlock(o, hr, hrMap, HoldingRegister, Bucket(registers, HoldingRegister));
      if h.Err? {
        return Some(h.error);
      }
      var i := SetupBlock(o, ir, irMap, InputRegister, Bucket(registers, InputRegister));
      if i.Err? {
        return Some(i.error);
      }
      var d := SetupBlock(o, di, diMap, DiscreteInput, Bucket(registers, DiscreteInput));
      if d.Err? {
        return Some(d.error);
      }
      var c := SetupBlock(o, co, coMap, Coil, Bucket(registers, Coil));
      if c.Err? {
        return Some(c.error);
      }
      ghost var lh := LayoutOf(Bucket(registers, HoldingRegister), sparse).value;
      ghost var li := LayoutOf(Bucket(registers, InputRegister), sparse).value;
      ghost var ld := LayoutOf(Bucket(registers, DiscreteInput), sparse).value;
      ghost var lc := LayoutOf(Bucket(registers, Coil), sparse).value;
      Install(h.value, i.value, d.value, c.value, lh, li, ld, lc);
      e := None;
    }

    /** `self.store[...] = ...` for the four blocks built from `lay`. */
    method Install(h: Block, i: Block, d: Block, c: Block, ghost lh: Layout, ghost li: Layout, ghost ld: Layout, ghost lc: Layout)
      requires Owned(h, Origin(ip, slaveId, sparse), HoldingRegister) && Initial(h, lh)
      requires Owned(i, Origin(ip, slaveId, sparse), InputRegister) && Initial(i, li)
      requires Owned(d, Origin(ip, slaveId, sparse), DiscreteInput) && Initial(d, ld)
      requires Owned(c, Origin(ip, slaveId, sparse), Coil) && Initial(c, lc)
      modifies this`store
      ensures store == map[HoldingRegister := h, InputRegister := i, DiscreteInput := d, Coil := c]
      ensures Valid() && Stored(map[HoldingRegister := lh, InputRegister := li, DiscreteInput := ld, Coil := lc])
    {
      store := map[HoldingRegister := h, InputRegister := i, DiscreteInput := d, Coil := c];
      ghost var lay := map[HoldingRegister := lh, InputRegister := li, DiscreteInput := ld, Coil := lc];
      forall t: RegType
        ensures t in store && Owned(store[t], Origin(ip, slaveId, sparse), t) && Initial(store[t], lay[t])
      {
        match t
        case HoldingRegister =>
        case InputRegister =>
        case DiscreteInput =>
        case Coil =>
      }
    }

    /** The setup of one block from its bucket: the dict in a sparse
        context, the list otherwise. */
    static method SetupBlock(o: Origin, list: seq<Option<int>>, dict: map<Option<int>, int>, t: RegType,
                             ghost bucket: seq<Option<int>>) returns (r: Result<Block>)
      requires o.sparse ==> dict == ZeroMap(bucket)
      requires !o.sparse ==> list == bucket
      ensures r.Ok? <==> LayoutOf(bucket, o.sparse).Ok?
      ensures r.Err? ==> r.error == LayoutOf(bucket, o.sparse).error
      ensures r.Ok? ==> Owned(r.value, o, t) && fresh(Objects(r.value)) && Initial(r.value, LayoutOf(bucket, o.sparse).value)
    {
      if o.sparse {
        var b := SetupSparseBlock(o, dict, t);
        r := Ok(b);
      } else {
        r := SetupSequentialBlock(o, list, t);
      }
    }

    /** `_setup_sparse_block(block, register_type)`: a block when the dict
        is not empty. */
    static method SetupSparseBlock(o: Origin, block: map<Option<int>, int>, t: RegType) returns (b: Block)
      requires o.sparse
      ensures Owned(b, o, t) && fresh(Objects(b))
      ensures Initial(b, if |block| > 0 then SparseLayout(block) else Absent)
    {
      if |block| > 0 {
        var r := SparseBlock.Create(o, TypeName(t), block);
        if r.Err? {
          assert false;
          return NoBlock;
        }
        RegTypeNameUnique(r.value.registerType, t);
        return Sparse(r.value);
      }
      return NoBlock;
    }

    /** `_setup_sequential_block(block, register_type)`: the sorted
        addresses give the base and the number of values. */
    static method SetupSequentialBlock(o: Origin, block: seq<Option<int>>, t: RegType) returns (r: Result<Block>)
      requires !o.sparse
      ensures r.Ok? <==> SequentialLayoutOf(block).Ok?
      ensures r.Err? ==> r.error == SequentialLayoutOf(block).error
      ensures r.Ok? ==> Owned(r.value, o, t) && fresh(Objects(r.value)) && Initial(r.value, SequentialLayoutOf(block).value)
    {
      if |block| == 0 {
        return Ok(NoBlock);
      }
      if None in block {
        return Err(TypeError);
      }
      var sorted := SortInts(Unwrap(block));
      var values := Repeat(0, sorted[|sorted| - 1] - sorted[0]);
      var b := SequentialBlock.Create(o, TypeName(t), sorted[0], values);
      if b.Err? {
        assert false;
        return Ok(NoBlock);
      }
      RegTypeNameUnique(b.value.registerType, t);
      return Ok(Sequential(b.value));
    }

    /** The address the blocks are asked for: one higher when the context is
        not in zero mode. */
    function Shifted(address: int): int
      reads this
    {
      if zeroMode then address else address + 1
    }

    /** `validate(fx, address, count)` for the block of type `t`. */
    function Validate(t: RegType, address: int, count: int): (r: Result<bool>)
      requires Valid()
      reads this, if t in store then Objects(store[t]) else {}
      ensures r.Err? <==> store[t].NoBlock?
      ensures r.Err? ==> r.error == AttributeError
      ensures store[t].Sequential? ==>
        var b := store[t].sq;
        (r == Ok(true) <==> b.base <= Shifted(address) && Shifted(address) + count <= b.base + |b.values|)
      ensures store[t].Sparse? ==>
        (r == Ok(true) <==> count > 0 && Covers(store[t].sp.values, Shifted(address), count))
    {
      match store[t]
      case NoBlock => Err(AttributeError)
      case Sequential(b) => Ok(b.Validate(Shifted(address), count))
      case Sparse(b) => Ok(b.Validate(Shifted(address), count))
    }

    /** `getValues(fx, address, count)` for the block of type `t`, with the
        rows the store returns. */
    method GetValues(t: RegType, address: nat, count: nat, returned: seq<Record>) returns (r: Result<seq<int>>)
      requires Valid()
      modifies Objects(store[t])
      ensures store[t].NoBlock? ==> r == Err(AttributeError)
      ensures store[t].Sequential? ==>
        var b := store[t].sq;
        var g := Absorb(Cache(old(b.values), old(b.timestamps)), b.base, Shifted(address),
                        ReadSpec(b.origin, Shifted(address), count, BlockFill, returned));
        && r == g.result && b.values == g.cache.values && b.timestamps == g.cache.timestamps
        && b.calls == old(b.calls) + [GetItems(ReadFilter(Origin(ip, slaveId, sparse), t, Shifted(address), count))]
      ensures store[t].Sparse? ==>
        var b := store[t].sp;
        && b.values == Refresh(old(b.values), old(b.values).Keys, KeyedValues(SortByAddress(returned)))
        && b.timestamps == Refresh(old(b.timestamps), old(b.values).Keys, KeyedTimestamps(SortByAddress(returned)))
        && r == CachedRange(b.values, Shifted(address), count)
        && b.calls == old(b.calls) + [GetItems(ReadFilter(Origin(ip, slaveId, sparse), t, Shifted(address), count))]
    {
      var a: nat := if zeroMode then address else address + 1;
      match store[t]
      case NoBlock =>
        r := Err(AttributeError);
      case Sequential(b) =>
        r := b.GetValues(a, count, returned);
      case Sparse(b) =>
        r := b.GetValues(a, count, returned);
    }

    /** `setValues(fx, address, values)` for the block of type `t`: the
        exception raised, if any. A single number has no `len()` and raises
        `TypeError` before the block is looked up. */
    method SetValues(t: RegType, address: nat, payload: Payload) returns (e: Option<Exception>)
      requires Valid()
      requires !(store[t].Sequential? && payload.Mapping?)
      modifies Objects(store[t])
      ensures payload.Scalar? ==> e == Some(TypeError) && unchanged(Objects(store[t]))
      ensures !payload.Scalar? && store[t].NoBlock? ==> e == Some(AttributeError)
      ensures !payload.Scalar? && store[t].Sequential? ==>
        var b := store[t].sq;
        var items := AsList(payload);
        && e == None
        && b.values == AssignSlice(old(b.values), Shifted(address) - b.base, Shifted(address) - b.base + |items|, items)
        && b.timestamps == old(b.timestamps)
        && b.calls == old(b.calls) + WritesFrom(b.origin, t, Shifted(address), items, Shifted(address))
      ensures !payload.Scalar? && store[t].Sparse? ==>
        var b := store[t].sp;
        && e == None
        && b.values == Store(old(b.values), Pairs(Shifted(address), payload))
        && b.timestamps == old(b.timestamps)
        && b.calls == old(b.calls) + PairWrites(b.origin, t, Pairs(Shifted(address), payload))
    {
      var a: nat := if zeroMode then address else address + 1;
      if payload.Scalar? {
        return Some(TypeError);
      }
      match store[t]
      case NoBlock =>
        e := Some(AttributeError);
      case Sequential(b) =>
        b.SetValues(a, payload);
        e := None;
      case Sparse(b) =>
        b.SetValues(a, payload);
        e := None;
    }

    /** `reset()`: only logs a warning. */
    method Reset()
      ensures unchanged(this) && unchanged(StoreObjects())
    {
    }
  }

  lemma RegTypeNameUnique(a: RegType, b: RegType)
    requires TypeName(a) == TypeName(b)
    ensures a == b
  {
  }

  /** One more descriptor extends the bucket of its own type, and no other. */
  lemma BucketStep(regs: seq<Descriptor>, i: nat)
    requires i < |regs|
    ensures forall t :: (Bucket(regs[..i + 1], t) ==
      Bucket(regs[..i], t) + (if BucketOf(regs[i]) == t then [regs[i].address] else []))
    ensures forall t :: (ZeroMap(Bucket(regs[..i + 1], t)) ==
      if BucketOf(regs[i]) == t then ZeroMap(Bucket(regs[..i], t))[regs[i].address := 0] else ZeroMap(Bucket(regs[..i], t)))
  {
    assert regs[..i + 1][..i] == regs[..i];
    forall t
      ensures ZeroMap(Bucket(regs[..i + 1], t)) ==
        if BucketOf(regs[i]) == t then ZeroMap(Bucket(regs[..i], t))[regs[i].address := 0] else ZeroMap(Bucket(regs[..i], t))
    {
      var b := Bucket(regs[..i], t);
      if BucketOf(regs[i]) == t {
        var b' := b + [regs[i].address];
        assert Bucket(regs[..i + 1], t) == b';
        assert b'[..|b'| - 1] == b;
        assert ZeroMap(b') == ZeroMap(b)[regs[i].address := 0];
      } else {
        assert Bucket(regs[..i + 1], t) == b;
      }
    }
  }

  /** A sparse block whose range validates answers every read of that range
      from its cache: the refresh keeps the keys, so no `KeyError`. */
  lemma ValidatedSparseRead(values: map<Option<int>, int>, address: int, count: nat, fetched: map<int, int>)
    requires count > 0 && Covers(values, address, count)
    ensures CachedRange(Refresh(values, values.Keys, fetched), address, count).Ok?
  {
    RefreshKeepsKeys(values, fetched);
  }

  // ---------- specification of the server's slaves ----------

  /** `_initialize_slaves` over the rows, for any way `idOf` of reading a
      row's slave id and any way `failure` a row's context can fail to
      build: `acc` maps each slave id seen so far to the row its context was
      built from. A row whose id was seen is skipped; the first malformed id
      or failing context aborts. */
  function Admit<R>(rows: seq<R>, idOf: R -> Result<int>, failure: R -> Option<Exception>, acc: map<int, R>): Result<map<int, R>>
    decreases |rows|
  {
    if |rows| == 0 then Ok(acc)
    else
      var id :- idOf(rows[0]);
      if id in acc then Admit(rows[1..], idOf, failure, acc)
      else if failure(rows[0]).Some? then Err(failure(rows[0]).value)
      else Admit(rows[1..], idOf, failure, acc[id := rows[0]])
  }

  /** `int(row[COL_SLAVE_ID])` */
  function SlaveIdOf(row: ConfigRow): Result<int> {
    ParseInt(row.slaveId)
  }

  /** The exception that aborts the construction of the row's context, if any. */
  function BuildFailure(row: ConfigRow): (e: Option<Exception>)
    ensures e.None? <==> SlaveSpec(row).Ok?
  {
    if SlaveSpec(row).Err? then Some(SlaveSpec(row).error) else None
  }

  /** The slave contexts `_initialize_slaves` builds from the rows. */
  function Slaves(rows: seq<ConfigRow>): Result<map<int, ConfigRow>> {
    Admit(rows, SlaveIdOf, BuildFailure, map[])
  }

  /** Row `k` is the first row with its slave id (and the id was not seen before). */
  predicate FirstOf<R>(rows: seq<R>, idOf: R -> Result<int>, acc: map<int, R>, k: int)
    requires 0 <= k < |rows|
  {
    && idOf(rows[k]).Ok?
    && idOf(rows[k]).value !in acc
    && forall j :: 0 <= j < k ==> idOf(rows[j]) != idOf(rows[k])
  }

  /** A successful initialisation parsed every row's id and has a context for
      exactly the ids of the rows (and those seen before). */
  lemma {:induction false} AdmitIds<R>(rows: seq<R>, idOf: R -> Result<int>, failure: R -> Option<Exception>, acc: map<int, R>)
    ensures var r := Admit(rows, idOf, failure, acc);
      r.Ok? ==>
        && (forall k :: 0 <= k < |rows| ==> idOf(rows[k]).Ok?)
        && (forall id :: id in r.value <==> id in acc || exists k :: 0 <= k < |rows| && idOf(rows[k]) == Ok(id))
    decreases |rows|
  {
    if |rows| > 0 {
      var id := idOf(rows[0]);
      if id.Ok? {
        var acc' := if id.value in acc then acc else acc[id.value := rows[0]];
        AdmitIds(rows[1..], idOf, failure, acc');
        var r := Admit(rows, idOf, failure, acc);
        if r.Ok? {
          assert r == Admit(rows[1..], idOf, failure, acc');
          forall k | 0 <= k < |rows|
            ensures idOf(rows[k]).Ok?
          {
            if k > 0 {
              assert rows[k] == rows[1..][k - 1];
            }
          }
          forall x
            ensures x in r.value <==> x in acc || exists k :: 0 <= k < |rows| && idOf(rows[k]) == Ok(x)
          {
            if exists k :: 0 <= k < |rows| && idOf(rows[k]) == Ok(x) {
              var k :| 0 <= k < |rows| && idOf(rows[k]) == Ok(x);
              if k > 0 {
                assert rows[1..][k - 1] == rows[k];
              }
            }
            if exists k :: 0 <= k < |rows[1..]| && idOf(rows[1..][k]) == Ok(x) {
              var k :| 0 <= k < |rows[1..]| && idOf(rows[1..][k]) == Ok(x);
              assert rows[k + 1] == rows[1..][k];
            }
          }
        }
      }
    }
  }

  /** The first row with a slave id wins: its context is the one kept, and
      the ones seen before are kept as they were. Every context kept was
      built without error. */
  lemma {:induction false} AdmitFirstWins<R>(rows: seq<R>, idOf: R -> Result<int>, failure: R -> Option<Exception>, acc: map<int, R>)
    ensures var r := Admit(rows, idOf, failure, acc);
      r.Ok? ==>
        && (forall id :: id in acc ==> id in r.value && r.value[id] == acc[id])
        && (forall k :: 0 <= k < |rows| && FirstOf(rows, idOf, acc, k) ==>
              idOf(rows[k]).value in r.value && r.value[idOf(rows[k]).value] == rows[k])
        && (forall id :: id in r.value && id !in acc ==> failure(r.value[id]).None?)
    decreases |rows|
  {
    if |rows| > 0 {
      var id := idOf(rows[0]);
      if id.Ok? {
        var acc' := if id.value in acc then acc else acc[id.value := rows[0]];
        AdmitFirstWins(rows[1..], idOf, failure, acc');
        var r := Admit(rows, idOf, failure, acc);
        if r.Ok? {
          assert r == Admit(rows[1..], idOf, failure, acc');
          forall k | 0 <= k < |rows| && FirstOf(rows, idOf, acc, k)
            ensures idOf(rows[k]).value in r.value && r.value[idOf(rows[k]).value] == rows[k]
          {
            if k > 0 {
              assert rows[1..][k - 1] == rows[k];
              assert FirstOf(rows[1..], idOf, acc', k - 1) by {
                forall j | 0 <= j < k - 1
                  ensures idOf(rows[1..][j]) != idOf(rows[1..][k - 1])
                {
                  assert rows[1..][j] == rows[j + 1];
                }
              }
            }
          }
        }
      }
    }
  }

  /** Conversely, when every id parses and every first row of an id builds
      its context, the initialisation succeeds. */
  lemma {:induction false} AdmitSucceeds<R>(rows: seq<R>, idOf: R -> Result<int>, failure: R -> Option<Exception>, acc: map<int, R>)
    requires forall k :: 0 <= k < |rows| ==> idOf(rows[k]).Ok?
    requires forall k :: 0 <= k < |rows| && FirstOf(rows, idOf, acc, k) ==> failure(rows[k]).None?
    ensures Admit(rows, idOf, failure, acc).Ok?
    decreases |rows|
  {
    if |rows| > 0 {
      var id := idOf(rows[0]).value;
      var acc' := if id in acc then acc else acc[id := rows[0]];
      if id !in acc {
        assert FirstOf(rows, idOf, acc, 0);
      }
      forall k | 0 <= k < |rows[1..]|
        ensures idOf(rows[1..][k]).Ok?
      {
        assert rows[1..][k] == rows[k + 1];
      }
      forall k | 0 <= k < |rows[1..]| && FirstOf(rows[1..], idOf, acc', k)
        ensures failure(rows[1..][k]).None?
      {
        assert rows[1..][k] == rows[k + 1];
        assert FirstOf(rows, idOf, acc, k + 1) by {
          forall j | 0 <= j < k + 1
            ensures idOf(rows[j]) != idOf(rows[k + 1])
          {
            if j > 0 {
              assert rows[1..][j - 1] == rows[j];
            }
          }
        }
      }
      AdmitSucceeds(rows[1..], idOf, failure, acc');
    }
  }

  /** One row of the initialisation: a malformed id aborts, a seen id is
      skipped, and an unseen one is admitted unless its context fails. */
  lemma SlavesStep(rows: seq<ConfigRow>, i: nat, acc: map<int, ConfigRow>)
    requires i < |rows|
    ensures var id := SlaveIdOf(rows[i]);
      Admit(rows[i..], SlaveIdOf, BuildFailure, acc) ==
        if id.Err? then Err(id.error)
        else if id.value in acc then Admit(rows[i + 1..], SlaveIdOf, BuildFailure, acc)
        else if SlaveSpec(rows[i]).Err? then Err(SlaveSpec(rows[i]).error)
        else Admit(rows[i + 1..], SlaveIdOf, BuildFailure, acc[id.value := rows[i]])
  {
    assert rows[i..][1..] == rows[i + 1..];
  }

  // ---------- the server context ----------

  /** `ClearBladeModbusProxyServerContext`: the slave contexts by slave id. */
  class ServerContext {
    var slaves: map<int, SlaveContext>

    constructor ()
      ensures slaves == map[]
    {
      slaves := map[];
    }

    /** The server holds a context for exactly the ids of `acc`, each built
        from its row into the state `SlaveSpec` gives for that row. */
    ghost predicate Holds(acc: map<int, ConfigRow>)
      reads this
    {
      BuiltFrom(slaves, acc)
    }

    /** `Holds(acc)`, and `seen` lists the ids of `acc`. */
    ghost predicate Admitted(acc: map<int, ConfigRow>, seen: seq<int>)
      reads this
    {
      Holds(acc) && forall id :: id in seen <==> id in acc
    }

    /** `_initialize_slaves()` on the rows the configuration collection
        returns: the exception that aborts it, if any. */
    method InitializeSlaves(rows: seq<ConfigRow>) returns (e: Option<Exception>)
      requires slaves == map[]
      modifies this
      ensures var a := Slaves(rows);
        && (e.None? <==> a.Ok?)
        && (e.Some? ==> e.value == a.error)
        && (a.Ok? ==> Holds(a.value))
    {
      ghost var acc: map<int, ConfigRow> := map[];
      ghost var target := Slaves(rows);
      var seen: seq<int> := [];
      var i := 0;
      while i < |rows|
        invariant 0 <= i <= |rows|
        invariant Admitted(acc, seen)
        invariant target == Admit(rows[i..], SlaveIdOf, BuildFailure, acc)
      {
        seen, acc, e := AdmitRow(rows, i, seen, acc);
        if e.Some? {
          return;
        }
        i := i + 1;
      }
      return None;
    }

    /** One turn of the loop of `_initialize_slaves`: the row's id is parsed,
        and a context is built for it unless the id was seen before. */
    method AdmitRow(rows: seq<ConfigRow>, i: nat, seen: seq<int>, ghost acc: map<int, ConfigRow>)
      returns (seen': seq<int>, ghost acc': map<int, ConfigRow>, e: Option<Exception>)
      requires i < |rows| && Admitted(acc, seen)
      modifies this
      ensures e.Some? ==> Admit(rows[i..], SlaveIdOf, BuildFailure, acc) == Err(e.value)
      ensures e.None? ==> Admitted(acc', seen')
      ensures e.None? ==>
        Admit(rows[i..], SlaveIdOf, BuildFailure, acc) == Admit(rows[i + 1..], SlaveIdOf, BuildFailure, acc')
    {
      SlavesStep(rows, i, acc);
      seen', acc', e := seen, acc, None;
      var id := SlaveIdOf(rows[i]);
      if id.Err? {
        return seen, acc, Some(id.error);
      }
      if id.value !in seen {
        e := AddSlave(id.value, rows[i], acc);
        if e.None? {
          seen', acc' := seen + [id.value], acc[id.value := rows[i]];
        }
      }
    }

    /** `self[slave_id] = ClearBladeModbusProxySlaveContext(...)` for an id
        not seen before: the exception of the construction, if any. */
    method AddSlave(id: int, row: ConfigRow, ghost acc: map<int, ConfigRow>) returns (e: Option<Exception>)
      requires Holds(acc) && id !in acc
      modifies this`slaves
      ensures e.None? <==> SlaveSpec(row).Ok?
      ensures e.Some? ==> e.value == SlaveSpec(row).error
      ensures e.None? ==> Holds(acc[id := row])
    {
      var c := SlaveContext.Build(row);
      if c.Err? {
        return Some(c.error);
      }
      Insert(id, c.value, acc);
      return None;
    }

    /** The new context goes in under its id. */
    method Insert(id: int, c: SlaveContext, ghost acc: map<int, ConfigRow>)
      requires Holds(acc) && id !in acc && c.FromRow()
      modifies this`slaves
      ensures slaves == old(slaves)[id := c]
      ensures Holds(acc[id := c.row])
    {
      BuiltFromRows(slaves, acc, id, c);
      slaves := slaves[id := c];
    }
  }

  /** Every context of `m` is built from the row `acc` holds for its id. */
  ghost predicate BuiltFrom(m: map<int, SlaveContext>, acc: map<int, ConfigRow>) {
    && m.Keys == acc.Keys
    && forall id :: id in m ==> m[id].row == acc[id] && m[id].FromRow()
  }

  /** Updating a map whose every entry is `ok` and carries the row recorded
      for its key, with an `ok` entry and its row, keeps both properties. */
  lemma UpdateKeeps<T>(m: map<int, T>, acc: map<int, ConfigRow>, id: int, c: T, rowOf: T -> ConfigRow, ok: T -> bool,
                       m': map<int, T>, acc': map<int, ConfigRow>)
    requires m.Keys == acc.Keys && ok(c)
    requires forall k :: k in m ==> rowOf(m[k]) == acc[k] && ok(m[k])
    requires m' == m[id := c] && acc' == acc[id := rowOf(c)]
    ensures m'.Keys == acc'.Keys
    ensures forall k :: k in m' ==> rowOf(m'[k]) == acc'[k] && ok(m'[k])
  {
  }

  /** Adding a context built from its row keeps every context built from its row. */
  lemma BuiltFromRows(m: map<int, SlaveContext>, acc: map<int, ConfigRow>, id: int, c: SlaveContext)
    requires BuiltFrom(m, acc) && c.FromRow()
    ensures BuiltFrom(m[id := c], acc[id := c.row])
  {
    UpdateKeeps(m, acc, id, c, (x: SlaveContext) => x.row, (x: SlaveContext) => x.FromRow(), m[id := c], acc[id := c.row]);
  }
}
