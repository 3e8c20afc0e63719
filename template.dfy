/** The device template a slave context is configured from (`config.dat`
    of the Modbus proxy), and the register layout built from it: the rules
    `_parse_config` applies line by line and tag by tag, the per-type
    buckets the parsed registers are sorted into, and the sparse and
    sequential block layouts made from a bucket. */
module Template {
  import opened Base
  import opened Text
  import opened Lists
  import opened Bridge

  // ---------- the template's tags ----------

  const DeviceLine := "/*DEVICE;"
  const NetworkLine := "deviceId"
  const RegisterLine := "paramId"
  const Separator := ';'
  const ParamIdTag := "paramId"
  const AddressTag := "address"
  const RegTypeTag := "registerType"
  const NetworkIdTag := "networkId"
  const PlcBaseTag := "plcBaseAddress"
  const SparseTag := "sparse"

  /** The largest register address a template may give. */
  const MaxAddress := 99999

  // ---------- what a parse produces ----------

  /** The identity fields a template sets (of `ModbusDeviceIdentification`). */
  datatype Identity = Identity(
    vendorName: string, productCode: string, vendorUrl: string,
    productName: string, modelName: string, majorMinorRevision: string)

  const DefaultIdentity := Identity("", "", "", "", "", "")

  /** The slave context's own settings a template changes. */
  datatype Header = Header(identity: Identity, sparse: bool, slaveId: int, zeroMode: bool)

  /** `_RegisterBlockConfig`: the temporary descriptor of one register. */
  datatype Descriptor = Descriptor(paramId: Option<int>, address: Option<int>, registerType: Option<RegType>, blockSize: int)

  /** `_RegisterBlockConfig(param_id=..., address=...)`: no type, a block size of 1. */
  function NewDescriptor(paramId: Option<int>, address: Option<int>): (d: Descriptor)
    ensures d.paramId == paramId && d.address == address && d.registerType == None && d.blockSize == 1
  {
    Descriptor(paramId, address, None, 1)
  }

  /** The settings and the register list built so far. */
  datatype Parse = Parse(header: Header, registers: seq<Descriptor>)

  /** The state of one register line: the register list, `reg_exists` and
      `this_reg`. */
  datatype RegLine = RegLine(registers: seq<Descriptor>, known: bool, current: Option<int>)

  // ---------- prefixes ----------

  /** A string with a given prefix starts with the prefix's first character;
      this is what tells the template's tag names apart. */
  lemma PrefixHead(s: string, prefix: string)
    requires |prefix| > 0 && StartsWith(s, prefix)
    ensures |s| > 0 && s[0] == prefix[0]
  {
    assert s[..|prefix|][0] == s[0];
  }

  // ---------- identity lines ----------

  /** The six identity fields, in the order the device-line branches test them. */
  datatype Field = VendorName | ProductCode | VendorUrl | ProductName | ModelName | MajorMinorRevision

  function FieldName(f: Field): (n: string)
    ensures |n| > 0 && (n[0] == 'V' || n[0] == 'P' || n[0] == 'M')
  {
    match f
    case VendorName => "VendorName"
    case ProductCode => "ProductCode"
    case VendorUrl => "VendorUrl"
    case ProductName => "ProductName"
    case ModelName => "ModelName"
    case MajorMinorRevision => "MajorMinorRevision"
  }

  function FieldValue(id: Identity, f: Field): string {
    match f
    case VendorName => id.vendorName
    case ProductCode => id.productCode
    case VendorUrl => id.vendorUrl
    case ProductName => id.productName
    case ModelName => id.modelName
    case MajorMinorRevision => id.majorMinorRevision
  }

  /** `self.identity.<field> = value`: that field changes and no other. */
  function SetField(id: Identity, f: Field, v: string): (r: Identity)
    ensures forall g :: FieldValue(r, g) == if g == f then v else FieldValue(id, g)
  {
    match f
    case VendorName => id.(vendorName := v)
    case ProductCode => id.(productCode := v)
    case VendorUrl => id.(vendorUrl := v)
    case ProductName => id.(productName := v)
    case ModelName => id.(modelName := v)
    case MajorMinorRevision => id.(majorMinorRevision := v)
  }

  /** The field a device-line tag names: the first of the six names, in
      branch order, that the tag starts with. */
  function NamedField(tag: string): (f: Option<Field>)
    ensures f.Some? ==> StartsWith(tag, FieldName(f.value))
  {
    if StartsWith(tag, FieldName(VendorName)) then Some(VendorName)
    else if StartsWith(tag, FieldName(ProductCode)) then Some(ProductCode)
    else if StartsWith(tag, FieldName(VendorUrl)) then Some(VendorUrl)
    else if StartsWith(tag, FieldName(ProductName)) then Some(ProductName)
    else if StartsWith(tag, FieldName(ModelName)) then Some(ModelName)
    else if StartsWith(tag, FieldName(MajorMinorRevision)) then Some(MajorMinorRevision)
    else None
  }

  /** The identity a device-line tag gives, when it names a field: that
      field takes the stripped text after the name and one more character. */
  function IdentityField(id: Identity, tag: string): (r: Option<Identity>)
    ensures r.Some? ==> |tag| > 0 && (tag[0] == 'V' || tag[0] == 'P' || tag[0] == 'M')
  {
    match NamedField(tag)
    case Some(f) =>
      PrefixHead(tag, FieldName(f));
      Some(SetField(id, f, Strip(TagValue(tag, FieldName(f)))))
    case None => None
  }

  lemma PrefixChar(s: string, prefix: string, i: nat)
    requires StartsWith(s, prefix) && i < |prefix|
    ensures s[i] == prefix[i]
  {
    assert s[..|prefix|][i] == s[i];
  }

  /** No tag starts with two of the six field names. */
  lemma FieldNamesDisjoint(tag: string, f: Field, g: Field)
    requires StartsWith(tag, FieldName(f)) && StartsWith(tag, FieldName(g))
    ensures f == g
  {
    PrefixChar(tag, FieldName(f), 0);
    PrefixChar(tag, FieldName(g), 0);
    PrefixChar(tag, FieldName(f), 1);
    PrefixChar(tag, FieldName(g), 1);
    PrefixChar(tag, FieldName(f), 6);
    PrefixChar(tag, FieldName(g), 6);
    PrefixChar(tag, FieldName(f), 7);
    PrefixChar(tag, FieldName(g), 7);
  }

  /** A tag names a field exactly when it starts with that field's name, so
      the order of the branches never decides which field a tag sets. */
  lemma NamedFieldExactly(tag: string)
    ensures forall f :: NamedField(tag) == Some(f) <==> StartsWith(tag, FieldName(f))
  {
    var n := NamedField(tag);
    if n.Some? {
      forall g | StartsWith(tag, FieldName(g)) ensures g == n.value {
        FieldNamesDisjoint(tag, n.value, g);
      }
    } else {
      forall f ensures !StartsWith(tag, FieldName(f)) {
        match f
        case VendorName =>
        case ProductCode =>
        case VendorUrl =>
        case ProductName =>
        case ModelName =>
        case MajorMinorRevision =>
      }
    }
  }

  /** Field `f` after tag `tag`: the tag's stripped value when the tag names
      `f`, otherwise the field's value in `id`. */
  function Updated(id: Identity, tag: string, f: Field): string {
    if StartsWith(tag, FieldName(f)) then Strip(TagValue(tag, FieldName(f))) else FieldValue(id, f)
  }

  /** A tag naming a field sets that field to its stripped value and leaves
      the other five alone; a tag naming none is not an identity field. */
  lemma IdentityFieldEffect(id: Identity, tag: string)
    ensures IdentityField(id, tag).Some? <==> exists f :: StartsWith(tag, FieldName(f))
    ensures IdentityField(id, tag).Some? ==>
      forall f :: FieldValue(IdentityField(id, tag).value, f) == Updated(id, tag, f)
  {
    NamedFieldExactly(tag);
  }

  /** One tag of a device line (one that starts with `DeviceLine`): an
      identity field, or `sparse=` in any letter case. A malformed number
      raises `ValueError`. */
  function IdentityTag(h: Header, tag: string): (r: Result<Header>)
    ensures r.Err? ==> r.error == ValueError
    ensures r.Ok? ==> r.value.slaveId == h.slaveId && r.value.zeroMode == h.zeroMode
  {
    match IdentityField(h.identity, tag)
    case Some(i) => Ok(h.(identity := i))
    case None =>
      if Lower(Take(tag, |SparseTag|)) == SparseTag then
        var n :- ParseInt(Strip(TagValue(tag, SparseTag)));
        Ok(h.(sparse := n != 0))
      else Ok(h)
  }

  function IdentityTags(h: Header, tags: seq<string>): (r: Result<Header>)
    ensures r.Err? ==> r.error == ValueError
    decreases |tags|
  {
    if |tags| == 0 then Ok(h)
    else
      var h' :- IdentityTag(h, tags[0]);
      IdentityTags(h', tags[1..])
  }

  /** One device-line tag: a field name sets that field and leaves the sparse
      flag alone; no tag touches the slave id or the zero mode. */
  lemma IdentityTagEffect(h: Header, tag: string)
    ensures var r := IdentityTag(h, tag);
      && ((exists f :: StartsWith(tag, FieldName(f))) ==> r.Ok? && r.value.sparse == h.sparse)
      && (r.Ok? ==> r.value.slaveId == h.slaveId && r.value.zeroMode == h.zeroMode)
      && (r.Ok? ==> forall f :: FieldValue(r.value.identity, f) == Updated(h.identity, tag, f))
  {
    IdentityFieldEffect(h.identity, tag);
    var r := IdentityTag(h, tag);
    if IdentityField(h.identity, tag).None? && r.Ok? {
      forall f ensures FieldValue(r.value.identity, f) == Updated(h.identity, tag, f) {
        assert !StartsWith(tag, FieldName(f));
      }
    }
  }

  /** Field `f` after one device-line tag. */
  lemma IdentityTagField(h: Header, tag: string, f: Field)
    ensures var r := IdentityTag(h, tag);
      r.Ok? ==> FieldValue(r.value.identity, f) == Updated(h.identity, tag, f)
  {
    IdentityTagEffect(h, tag);
  }

  /** Tag `k` is the last tag of the line that names field `f`. */
  predicate LastNaming(tags: seq<string>, f: Field, k: int) {
    && 0 <= k < |tags| && StartsWith(tags[k], FieldName(f))
    && forall j :: k < j < |tags| ==> !StartsWith(tags[j], FieldName(f))
  }

  /** One tag of a device line: the line fails with the tag's error, or
      goes on from the tag's result. */
  lemma IdentityTagsCons(h: Header, tags: seq<string>)
    requires |tags| > 0
    ensures IdentityTag(h, tags[0]).Err? ==> IdentityTags(h, tags) == Err(IdentityTag(h, tags[0]).error)
    ensures IdentityTag(h, tags[0]).Ok? ==> IdentityTags(h, tags) == IdentityTags(IdentityTag(h, tags[0]).value, tags[1..])
  {
  }

  /** The value of field `f`, starting from `v`, after each tag in turn sets
      it when the tag names it. */
  function FieldAfter(tags: seq<string>, f: Field, v: string): string
    decreases |tags|
  {
    if |tags| == 0 then v
    else FieldAfter(tags[1..], f, if StartsWith(tags[0], FieldName(f)) then Strip(TagValue(tags[0], FieldName(f))) else v)
  }

  /** A device line leaves each field at `FieldAfter` its tags. */
  lemma {:induction false} IdentityTagsFieldAfter(h: Header, tags: seq<string>, f: Field)
    ensures var r := IdentityTags(h, tags);
      r.Ok? ==> FieldValue(r.value.identity, f) == FieldAfter(tags, f, FieldValue(h.identity, f))
    decreases |tags|
  {
    if |tags| > 0 && IdentityTags(h, tags).Ok? {
      IdentityTagField(h, tags[0], f);
      IdentityTagsFieldAfter(IdentityTag(h, tags[0]).value, tags[1..], f);
    }
  }

  /** Tags that do not name `f` leave it alone. */
  lemma {:induction false} FieldAfterUnnamed(tags: seq<string>, f: Field, v: string)
    requires forall k :: 0 <= k < |tags| ==> !StartsWith(tags[k], FieldName(f))
    ensures FieldAfter(tags, f, v) == v
    decreases |tags|
  {
    if |tags| > 0 {
      assert !StartsWith(tags[0], FieldName(f));
      var rest := tags[1..];
      forall j | 0 <= j < |rest| ensures !StartsWith(rest[j], FieldName(f)) {
        assert rest[j] == tags[j + 1];
      }
      FieldAfterUnnamed(rest, f, v);
    }
  }

  lemma LastNamingTail(tags: seq<string>, f: Field, k: nat)
    requires k > 0 && LastNaming(tags, f, k)
    ensures LastNaming(tags[1..], f, k - 1) && tags[1..][k - 1] == tags[k]
  {
    var rest := tags[1..];
    forall j | k - 1 < j < |rest| ensures !StartsWith(rest[j], FieldName(f)) {
      assert rest[j] == tags[j + 1];
    }
  }

  /** The last tag naming `f` decides its value. */
  lemma {:induction false} FieldAfterLast(tags: seq<string>, f: Field, v: string, k: nat)
    requires LastNaming(tags, f, k)
    ensures FieldAfter(tags, f, v) == Strip(TagValue(tags[k], FieldName(f)))
    decreases k
  {
    var w := if StartsWith(tags[0], FieldName(f)) then Strip(TagValue(tags[0], FieldName(f))) else v;
    if k == 0 {
      var rest := tags[1..];
      forall j | 0 <= j < |rest| ensures !StartsWith(rest[j], FieldName(f)) {
        assert rest[j] == tags[j + 1];
      }
      FieldAfterUnnamed(rest, f, w);
    } else {
      LastNamingTail(tags, f, k);
      FieldAfterLast(tags[1..], f, w, k - 1);
    }
  }

  lemma {:induction false} IdentityTagsHeader(h: Header, tags: seq<string>)
    ensures var r := IdentityTags(h, tags);
      r.Ok? ==> r.value.slaveId == h.slaveId && r.value.zeroMode == h.zeroMode
    decreases |tags|
  {
    if |tags| > 0 && IdentityTags(h, tags).Ok? {
      IdentityTagsHeader(IdentityTag(h, tags[0]).value, tags[1..]);
    }
  }

  /** The last tag of a device line naming `f` decides its value. */
  lemma IdentityTagsLast(h: Header, tags: seq<string>, f: Field, k: nat)
    requires LastNaming(tags, f, k)
    ensures var r := IdentityTags(h, tags);
      r.Ok? ==> FieldValue(r.value.identity, f) == Strip(TagValue(tags[k], FieldName(f)))
  {
    IdentityTagsFieldAfter(h, tags, f);
    FieldAfterLast(tags, f, FieldValue(h.identity, f), k);
  }

  /** A field no tag of a device line names keeps its value. */
  lemma IdentityTagsUnnamed(h: Header, tags: seq<string>, f: Field)
    requires forall k :: 0 <= k < |tags| ==> !StartsWith(tags[k], FieldName(f))
    ensures var r := IdentityTags(h, tags);
      r.Ok? ==> FieldValue(r.value.identity, f) == FieldValue(h.identity, f)
  {
    IdentityTagsFieldAfter(h, tags, f);
    FieldAfterUnnamed(tags, f, FieldValue(h.identity, f));
  }

  /** What a device line sets: each identity field takes the stripped value
      of the last tag naming it, a field no tag names keeps its value, and
      the slave id and zero mode are unchanged. */
  lemma IdentityTagsEffect(h: Header, tags: seq<string>)
    ensures var r := IdentityTags(h, tags);
      r.Ok? ==>
        && r.value.slaveId == h.slaveId && r.value.zeroMode == h.zeroMode
        && (forall f, k :: LastNaming(tags, f, k) ==>
              FieldValue(r.value.identity, f) == Strip(TagValue(tags[k], FieldName(f))))
        && (forall f :: (forall k :: 0 <= k < |tags| ==> !StartsWith(tags[k], FieldName(f))) ==>
              FieldValue(r.value.identity, f) == FieldValue(h.identity, f))
  {
    IdentityTagsHeader(h, tags);
    var r := IdentityTags(h, tags);
    if r.Ok? {
      forall f, k | LastNaming(tags, f, k)
        ensures FieldValue(r.value.identity, f) == Strip(TagValue(tags[k], FieldName(f)))
      {
        IdentityTagsLast(h, tags, f, k);
      }
      forall f | forall k :: 0 <= k < |tags| ==> !StartsWith(tags[k], FieldName(f))
        ensures FieldValue(r.value.identity, f) == FieldValue(h.identity, f)
      {
        IdentityTagsUnnamed(h, tags, f);
      }
    }
  }

  // ---------- network lines ----------

  /** One tag of a `deviceId` line. */
  function NetworkTag(h: Header, tag: string): (r: Result<Header>)
    ensures r.Err? ==> r.error == ValueError
    ensures r.Ok? ==> r.value.identity == h.identity && r.value.sparse == h.sparse
  {
    if StartsWith(tag, NetworkIdTag) then
      var netId :- ParseInt(Strip(TagValue(tag, NetworkIdTag)));
      if 1 <= netId < 255 then
        var id :- ParseInt(TagValue(tag, NetworkIdTag));
        Ok(h.(slaveId := id))
      else Ok(h)
    else if StartsWith(tag, PlcBaseTag) then
      var plc :- ParseInt(Strip(TagValue(tag, PlcBaseTag)));
      Ok(h.(zeroMode := plc != 1))
    else Ok(h)
  }

  function NetworkTags(h: Header, tags: seq<string>): (r: Result<Header>)
    ensures r.Err? ==> r.error == ValueError
    decreases |tags|
  {
    if |tags| == 0 then Ok(h)
    else
      var h' :- NetworkTag(h, tags[0]);
      NetworkTags(h', tags[1..])
  }

  /** One tag of a network line, as `IdentityTagsCons`. */
  lemma NetworkTagsCons(h: Header, tags: seq<string>)
    requires |tags| > 0
    ensures NetworkTag(h, tags[0]).Err? ==> NetworkTags(h, tags) == Err(NetworkTag(h, tags[0]).error)
    ensures NetworkTag(h, tags[0]).Ok? ==> NetworkTags(h, tags) == NetworkTags(NetworkTag(h, tags[0]).value, tags[1..])
  {
  }

  // ---------- register lines ----------

  /** The register type a `registerType` token names. */
  function TypeToken(token: string): (t: Option<RegType>)
    ensures t == Some(InputRegister) <==> token == "analog"
    ensures t == Some(HoldingRegister) <==> token == "holding"
    ensures t == Some(DiscreteInput) <==> token == "input"
    ensures t == Some(Coil) <==> token == "coil"
  {
    if token == "analog" then Some(InputRegister)
    else if token == "holding" then Some(HoldingRegister)
    else if token == "input" then Some(DiscreteInput)
    else if token == "coil" then Some(Coil)
    else None
  }

  predicate HasParamId(regs: seq<Descriptor>, id: int) {
    exists k :: 0 <= k < |regs| && regs[k].paramId == Some(id)
  }

  /** Every descriptor whose id is `current` (`None` matches the descriptors
      without an id) gets the address. */
  function WithAddress(regs: seq<Descriptor>, current: Option<int>, addr: int): (r: seq<Descriptor>)
    ensures |r| == |regs|
    ensures forall k :: 0 <= k < |regs| ==>
      r[k] == if regs[k].paramId == current then regs[k].(address := Some(addr)) else regs[k]
  {
    seq(|regs|, k requires 0 <= k < |regs| => if regs[k].paramId == current then regs[k].(address := Some(addr)) else regs[k])
  }

  /** Every descriptor whose id is `current` gets the type. */
  function WithType(regs: seq<Descriptor>, current: Option<int>, t: RegType): (r: seq<Descriptor>)
    ensures |r| == |regs|
    ensures forall k :: 0 <= k < |regs| ==>
      r[k] == if regs[k].paramId == current then regs[k].(registerType := Some(t)) else regs[k]
  {
    seq(|regs|, k requires 0 <= k < |regs| => if regs[k].paramId == current then regs[k].(registerType := Some(t)) else regs[k])
  }

  /** `paramId=<id>`: the id becomes current; a descriptor for it is added
      unless the list has one or the line already made or found one. */
  function ParamIdStep(rl: RegLine, id: int): RegLine {
    var known := rl.known || HasParamId(rl.registers, id);
    RegLine(if known then rl.registers else rl.registers + [NewDescriptor(Some(id), None)], true, Some(id))
  }

  /** `address=<n>`: shifted by one when not in zero mode, and ignored
      outside `[0, 99999]`. */
  function AddressStep(zeroMode: bool, rl: RegLine, parsed: int): RegLine {
    var addr := if zeroMode then parsed else parsed + 1;
    if 0 <= addr <= MaxAddress then
      var regs := WithAddress(rl.registers, rl.current, addr);
      if rl.known then rl.(registers := regs)
      else RegLine(regs + [NewDescriptor(None, Some(addr))], true, rl.current)
    else rl
  }

  /** `registerType=<token>`: an unknown token changes nothing. */
  function TypeStep(rl: RegLine, token: string): RegLine {
    match TypeToken(token)
    case Some(t) => rl.(registers := WithType(rl.registers, rl.current, t))
    case None => rl
  }

  /** One tag of a `paramId` line, with the context's zero mode at that point. */
  function RegisterTag(zeroMode: bool, rl: RegLine, tag: string): (r: Result<RegLine>)
    ensures r.Err? ==> r.error == ValueError
  {
    if StartsWith(tag, ParamIdTag) then
      var id :- ParseInt(Strip(TagValue(tag, ParamIdTag)));
      Ok(ParamIdStep(rl, id))
    else if StartsWith(tag, AddressTag) then
      var parsed :- ParseInt(Strip(TagValue(tag, AddressTag)));
      Ok(AddressStep(zeroMode, rl, parsed))
    else if StartsWith(tag, RegTypeTag) then
      Ok(TypeStep(rl, Strip(TagValue(tag, RegTypeTag))))
    else Ok(rl)
  }

  function RegisterTags(zeroMode: bool, rl: RegLine, tags: seq<string>): (r: Result<RegLine>)
    ensures r.Err? ==> r.error == ValueError
    decreases |tags|
  {
    if |tags| == 0 then Ok(rl)
    else
      var rl' :- RegisterTag(zeroMode, rl, tags[0]);
      RegisterTags(zeroMode, rl', tags[1..])
  }

  // ---------- lines ----------

  /** One line of the template; lines of any other kind are ignored. */
  function ParseLine(p: Parse, line: string): (r: Result<Parse>)
    ensures r.Err? ==> r.error == ValueError
  {
    if StartsWith(line, DeviceLine) then
      var h :- IdentityTags(p.header, Split(line, Separator));
      Ok(p.(header := h))
    else if StartsWith(line, NetworkLine) then
      var h :- NetworkTags(p.header, Split(line, Separator));
      Ok(p.(header := h))
    else if StartsWith(line, RegisterLine) then
      var rl :- RegisterTags(p.header.zeroMode, RegLine(p.registers, false, None), Split(line, Separator));
      Ok(p.(registers := rl.registers))
    else Ok(p)
  }

  /** The template's lines in order; the first malformed number aborts the
      parse with `ValueError`. */
  function ParseLines(p: Parse, lines: seq<string>): (r: Result<Parse>)
    ensures r.Err? ==> r.error == ValueError
    decreases |lines|
  {
    if |lines| == 0 then Ok(p)
    else
      var p' :- ParseLine(p, lines[0]);
      ParseLines(p', lines[1..])
  }

  /** The lines from `i` on: line `i`, then the rest. */
  lemma ParseLinesStep(p: Parse, lines: seq<string>, i: nat)
    requires i < |lines|
    ensures ParseLines(p, lines[i..]) ==
      match ParseLine(p, lines[i])
      case Err(e) => Err(e)
      case Ok(p') => ParseLines(p', lines[i + 1..])
  {
    assert lines[i..][1..] == lines[i + 1..];
  }

  // ---------- properties of the parse ----------

  /** No two descriptors share a (non-null) `paramId`. */
  predicate UniqueIds(regs: seq<Descriptor>) {
    forall i, j :: 0 <= i < j < |regs| && regs[i].paramId.Some? ==> regs[i].paramId != regs[j].paramId
  }

  /** Every address a descriptor holds is a valid Modbus register address. */
  predicate AddressesInRange(regs: seq<Descriptor>) {
    forall k :: 0 <= k < |regs| && regs[k].address.Some? ==> 0 <= regs[k].address.value <= MaxAddress
  }

  predicate WellFormed(regs: seq<Descriptor>) {
    UniqueIds(regs) && AddressesInRange(regs)
  }

  lemma ParamIdStepKeeps(rl: RegLine, id: int)
    requires WellFormed(rl.registers)
    ensures WellFormed(ParamIdStep(rl, id).registers)
  {
    var regs := rl.registers;
    if !(rl.known || HasParamId(regs, id)) {
      var r := regs + [NewDescriptor(Some(id), None)];
      assert forall i :: 0 <= i < |regs| ==> r[i] == regs[i] && regs[i].paramId != Some(id);
    }
  }

  lemma AddressStepKeeps(zeroMode: bool, rl: RegLine, parsed: int)
    requires WellFormed(rl.registers)
    ensures WellFormed(AddressStep(zeroMode, rl, parsed).registers)
  {
    var addr := if zeroMode then parsed else parsed + 1;
    if 0 <= addr <= MaxAddress {
      var w := WithAddress(rl.registers, rl.current, addr);
      assert forall k :: 0 <= k < |w| ==> w[k].paramId == rl.registers[k].paramId;
      var r := w + [NewDescriptor(None, Some(addr))];
      assert forall i :: 0 <= i < |w| ==> r[i] == w[i];
    }
  }

  lemma TypeStepKeeps(rl: RegLine, token: string)
    requires WellFormed(rl.registers)
    ensures WellFormed(TypeStep(rl, token).registers)
  {
    var t := TypeToken(token);
    if t.Some? {
      var r := WithType(rl.registers, rl.current, t.value);
      assert forall k :: 0 <= k < |r| ==> r[k].paramId == rl.registers[k].paramId && r[k].address == rl.registers[k].address;
    }
  }

  /** A register tag never introduces a second descriptor with the same id,
      nor an address outside `[0, 99999]`. */
  lemma RegisterTagKeeps(zeroMode: bool, rl: RegLine, tag: string)
    requires WellFormed(rl.registers)
    ensures var r := RegisterTag(zeroMode, rl, tag); r.Ok? ==> WellFormed(r.value.registers)
  {
    RegisterTagDispatch(zeroMode, rl, tag);
    if StartsWith(tag, ParamIdTag) {
      var id := ParseInt(Strip(TagValue(tag, ParamIdTag)));
      if id.Ok? {
        ParamIdStepKeeps(rl, id.value);
      }
    } else if StartsWith(tag, AddressTag) {
      var parsed := ParseInt(Strip(TagValue(tag, AddressTag)));
      if parsed.Ok? {
        AddressStepKeeps(zeroMode, rl, parsed.value);
      }
    } else if StartsWith(tag, RegTypeTag) {
      TypeStepKeeps(rl, Strip(TagValue(tag, RegTypeTag)));
    }
  }

  lemma {:induction false} RegisterTagsKeep(zeroMode: bool, rl: RegLine, tags: seq<string>)
    requires WellFormed(rl.registers)
    ensures var r := RegisterTags(zeroMode, rl, tags); r.Ok? ==> WellFormed(r.value.registers)
    decreases |tags|
  {
    if |tags| > 0 {
      RegisterTagKeeps(zeroMode, rl, tags[0]);
      var r := RegisterTag(zeroMode, rl, tags[0]);
      if r.Ok? {
        RegisterTagsKeep(zeroMode, r.value, tags[1..]);
      }
    }
  }

  lemma ParseLineKeeps(p: Parse, line: string)
    requires WellFormed(p.registers)
    ensures var r := ParseLine(p, line); r.Ok? ==> WellFormed(r.value.registers)
  {
    if !StartsWith(line, DeviceLine) && !StartsWith(line, NetworkLine) && StartsWith(line, RegisterLine) {
      RegisterTagsKeep(p.header.zeroMode, RegLine(p.registers, false, None), Split(line, Separator));
    }
  }

  /** Register lines that share a `paramId` are merged into one descriptor:
      a parse never holds two descriptors with the same non-null id, and
      every address it holds lies in `[0, 99999]`. */
  lemma {:induction false} ParseLinesKeep(p: Parse, lines: seq<string>)
    requires WellFormed(p.registers)
    ensures var r := ParseLines(p, lines); r.Ok? ==> WellFormed(r.value.registers)
    decreases |lines|
  {
    if |lines| > 0 {
      ParseLineKeeps(p, lines[0]);
      var r := ParseLine(p, lines[0]);
      if r.Ok? {
        ParseLinesKeep(r.value, lines[1..]);
      }
    }
  }

  /** The three register tags are told apart by their first letter. */
  lemma RegisterTagDispatch(zeroMode: bool, rl: RegLine, tag: string)
    ensures StartsWith(tag, ParamIdTag) ==>
      var id := ParseInt(Strip(TagValue(tag, ParamIdTag)));
      RegisterTag(zeroMode, rl, tag) == if id.Ok? then Ok(ParamIdStep(rl, id.value)) else Err(ValueError)
    ensures StartsWith(tag, AddressTag) ==>
      var n := ParseInt(Strip(TagValue(tag, AddressTag)));
      RegisterTag(zeroMode, rl, tag) == if n.Ok? then Ok(AddressStep(zeroMode, rl, n.value)) else Err(ValueError)
    ensures StartsWith(tag, RegTypeTag) ==>
      RegisterTag(zeroMode, rl, tag) == Ok(TypeStep(rl, Strip(TagValue(tag, RegTypeTag))))
  {
    RegisterPrefixes(tag);
  }

  /** No tag starts with two of the three register tag names. */
  lemma RegisterPrefixes(tag: string)
    ensures StartsWith(tag, AddressTag) ==> !StartsWith(tag, ParamIdTag)
    ensures StartsWith(tag, RegTypeTag) ==> !StartsWith(tag, ParamIdTag) && !StartsWith(tag, AddressTag)
  {
    if StartsWith(tag, AddressTag) {
      PrefixHead(tag, AddressTag);
    }
    if StartsWith(tag, RegTypeTag) {
      PrefixHead(tag, RegTypeTag);
    }
    if StartsWith(tag, ParamIdTag) {
      PrefixHead(tag, ParamIdTag);
    }
  }

  /** An address step stores the number, plus 1 when the context is not in
      zero mode, in every descriptor of the line's current id, and adds a
      descriptor of its own when the line has none yet; a result outside
      `[0, 99999]` is rejected and changes nothing. */
  lemma AddressStepEffect(zeroMode: bool, rl: RegLine, parsed: int)
    ensures var addr := if zeroMode then parsed else parsed + 1;
      var r := AddressStep(zeroMode, rl, parsed);
      && (!(0 <= addr <= MaxAddress) ==> r == rl)
      && (0 <= addr <= MaxAddress ==>
           && r.known && r.current == rl.current
           && |r.registers| == |rl.registers| + (if rl.known then 0 else 1)
           && (forall k :: 0 <= k < |rl.registers| ==>
                 r.registers[k].paramId == rl.registers[k].paramId
                 && r.registers[k].registerType == rl.registers[k].registerType
                 && r.registers[k].address == if rl.registers[k].paramId == rl.current then Some(addr) else rl.registers[k].address)
           && (!rl.known ==> r.registers[|rl.registers|] == NewDescriptor(None, Some(addr))))
  {
  }

  /** After a `paramId` step the id is current and the line has a
      descriptor; the list gains the new descriptor exactly when it had none
      with that id and the line had none yet. */
  lemma ParamIdStepEffect(rl: RegLine, id: int)
    ensures var r := ParamIdStep(rl, id);
      && r.known && r.current == Some(id)
      && (HasParamId(r.registers, id) <==> HasParamId(rl.registers, id) || !rl.known)
      && (|r.registers| == |rl.registers| + 1 <==> !rl.known && !HasParamId(rl.registers, id))
      && r.registers[..|rl.registers|] == rl.registers
  {
    var r := ParamIdStep(rl, id);
    if !rl.known && !HasParamId(rl.registers, id) {
      assert r.registers[|rl.registers|].paramId == Some(id);
    }
    if HasParamId(r.registers, id) && r.registers == rl.registers + [NewDescriptor(Some(id), None)] {
      assert !rl.known;
    }
  }

  /** Two `paramId` tags on one line: the second id becomes current but no
      descriptor is created for it, so the line's later tags set nothing
      for it. */
  lemma SecondParamIdIgnored(rl: RegLine, a: int, b: int)
    requires a != b && !HasParamId(rl.registers, a) && !HasParamId(rl.registers, b) && !rl.known
    ensures var r := ParamIdStep(ParamIdStep(rl, a), b);
      r.current == Some(b) && HasParamId(r.registers, a) && !HasParamId(r.registers, b)
  {
    var r1 := ParamIdStep(rl, a);
    ParamIdStepEffect(rl, a);
    assert r1.registers == rl.registers + [NewDescriptor(Some(a), None)];
    ParamIdStepEffect(r1, b);
  }

  /** A type step sets the type of the current id's descriptors for the four
      known tokens and changes nothing else. */
  lemma TypeStepEffect(rl: RegLine, token: string)
    ensures var r := TypeStep(rl, token);
      && r.known == rl.known && r.current == rl.current && |r.registers| == |rl.registers|
      && (TypeToken(token) == None ==> r == rl)
      && (forall k :: 0 <= k < |rl.registers| ==>
            r.registers[k].paramId == rl.registers[k].paramId
            && r.registers[k].address == rl.registers[k].address
            && r.registers[k].registerType ==
                 if rl.registers[k].paramId == rl.current && TypeToken(token).Some? then TypeToken(token)
                 else rl.registers[k].registerType)
  {
  }

  /** `networkId=` overwrites the slave id when it lies in `[1, 254]` and
      keeps it otherwise; only a malformed number fails. */
  lemma NetworkIdTagEffect(h: Header, tag: string)
    requires StartsWith(tag, NetworkIdTag)
    ensures var r := NetworkTag(h, tag);
      var n := ParseInt(Strip(TagValue(tag, NetworkIdTag)));
      && (r.Ok? <==> n.Ok?)
      && (r.Ok? ==> r.value == if 1 <= n.value <= 254 then h.(slaveId := n.value) else h)
  {
    ParseIntStrip(TagValue(tag, NetworkIdTag));
  }

  /** `plcBaseAddress=1` turns zero mode off and any other number turns it
      on; only a malformed number fails. */
  lemma PlcBaseTagEffect(h: Header, tag: string)
    requires StartsWith(tag, PlcBaseTag)
    ensures var r := NetworkTag(h, tag);
      var n := ParseInt(Strip(TagValue(tag, PlcBaseTag)));
      && (r.Ok? <==> n.Ok?)
      && (r.Ok? ==> r.value == h.(zeroMode := n.value != 1))
  {
    PrefixHead(tag, PlcBaseTag);
    if StartsWith(tag, NetworkIdTag) {
      PrefixHead(tag, NetworkIdTag);
    }
  }

  /** `networkId=` overwrites the slave id when it lies in `[1, 254]` and keeps
      it otherwise; `plcBaseAddress=1` turns zero mode off and any other
      number turns it on. Only a malformed number fails. */
  lemma NetworkTagEffect(h: Header, tag: string)
    ensures var r := NetworkTag(h, tag);
      && (StartsWith(tag, NetworkIdTag) ==>
           var n := ParseInt(Strip(TagValue(tag, NetworkIdTag)));
           && (r.Ok? <==> n.Ok?)
           && (r.Ok? ==> r.value == if 1 <= n.value <= 254 then h.(slaveId := n.value) else h))
      && (StartsWith(tag, PlcBaseTag) ==>
           var n := ParseInt(Strip(TagValue(tag, PlcBaseTag)));
           && (r.Ok? <==> n.Ok?)
           && (r.Ok? ==> r.value == h.(zeroMode := n.value != 1)))
      && (!StartsWith(tag, NetworkIdTag) && !StartsWith(tag, PlcBaseTag) ==> r == Ok(h))
  {
    if StartsWith(tag, NetworkIdTag) {
      NetworkIdTagEffect(h, tag);
    }
    if StartsWith(tag, PlcBaseTag) {
      PlcBaseTagEffect(h, tag);
    }
  }

  /** `sparse=` (in any letter case) sets sparse mode exactly when its number
      is not 0. */
  lemma SparseTagEffect(h: Header, tag: string)
    requires Lower(Take(tag, |SparseTag|)) == SparseTag
    ensures var n := ParseInt(Strip(TagValue(tag, SparseTag)));
      var r := IdentityTag(h, tag);
      && (r.Ok? <==> n.Ok?)
      && (r.Ok? ==> r.value == h.(sparse := n.value != 0))
  {
    assert Lower(Take(tag, |SparseTag|))[0] == LowerChar(tag[0]) == 's';
  }

  // ---------- buckets ----------

  /** The bucket a descriptor goes to: its own for `hr`, `ir` and `di`, and
      the coil bucket for coils and for descriptors without a type. */
  function BucketOf(d: Descriptor): (t: RegType)
    ensures t == Coil <==> d.registerType == None || d.registerType == Some(Coil)
    ensures t != Coil ==> d.registerType == Some(t)
  {
    match d.registerType
    case Some(HoldingRegister) => HoldingRegister
    case Some(InputRegister) => InputRegister
    case Some(DiscreteInput) => DiscreteInput
    case _ => Coil
  }

  /** The addresses of the bucket for `t`, in register order. */
  function Bucket(regs: seq<Descriptor>, t: RegType): seq<Option<int>> {
    if |regs| == 0 then []
    else Bucket(regs[..|regs| - 1], t) + (if BucketOf(regs[|regs| - 1]) == t then [regs[|regs| - 1].address] else [])
  }

  /** A bucket holds the address of every descriptor sorted into it, and
      nothing else. */
  lemma {:induction false} BucketMembers(regs: seq<Descriptor>, t: RegType, x: Option<int>)
    ensures x in Bucket(regs, t) <==> exists k :: 0 <= k < |regs| && BucketOf(regs[k]) == t && regs[k].address == x
  {
    if |regs| > 0 {
      var init := regs[..|regs| - 1];
      BucketMembers(init, t, x);
      assert forall k :: 0 <= k < |init| ==> init[k] == regs[k];
    }
  }

  /** The four buckets share out the descriptors: each goes to exactly one. */
  lemma {:induction false} BucketSizes(regs: seq<Descriptor>)
    ensures |Bucket(regs, HoldingRegister)| + |Bucket(regs, InputRegister)|
          + |Bucket(regs, DiscreteInput)| + |Bucket(regs, Coil)| == |regs|
  {
    if |regs| > 0 {
      BucketSizes(regs[..|regs| - 1]);
    }
  }

  // ---------- layouts ----------

  /** What `_setup_sparse_block` or `_setup_sequential_block` builds a block
      from, or `Absent` for `None`. */
  datatype Layout = Absent | SparseLayout(zeros: map<Option<int>, int>) | SequentialLayout(base: int, cells: seq<int>)

  /** The dict `{address: 0}` the sparse bucketing builds. */
  function ZeroMap(bucket: seq<Option<int>>): map<Option<int>, int> {
    if |bucket| == 0 then map[]
    else ZeroMap(bucket[..|bucket| - 1])[bucket[|bucket| - 1] := 0]
  }

  lemma {:induction false} ZeroMapShape(bucket: seq<Option<int>>)
    ensures forall a :: a in ZeroMap(bucket) <==> a in bucket
    ensures forall a :: a in ZeroMap(bucket) ==> ZeroMap(bucket)[a] == 0
  {
    if |bucket| > 0 {
      var init := bucket[..|bucket| - 1];
      ZeroMapShape(init);
      assert bucket == init + [bucket[|bucket| - 1]];
    }
  }

  /** `_setup_sparse_block`: a block when the dict is not empty. */
  function SparseLayoutOf(bucket: seq<Option<int>>): Layout {
    var m := ZeroMap(bucket);
    if |m| > 0 then SparseLayout(m) else Absent
  }

  /** The sparse layout of a bucket has exactly the bucket's addresses as
      keys, each with the value 0; an empty bucket gives no block. */
  lemma SparseLayoutShape(bucket: seq<Option<int>>)
    ensures SparseLayoutOf(bucket).Absent? <==> |bucket| == 0
    ensures SparseLayoutOf(bucket).SparseLayout? ==>
      && (forall a :: a in SparseLayoutOf(bucket).zeros <==> a in bucket)
      && (forall a :: a in SparseLayoutOf(bucket).zeros ==> SparseLayoutOf(bucket).zeros[a] == 0)
  {
    ZeroMapShape(bucket);
    if |bucket| > 0 {
      assert bucket[0] in ZeroMap(bucket);
    }
  }

  predicate Ascending(s: seq<int>) {
    forall i, j :: 0 <= i < j < |s| ==> s[i] <= s[j]
  }

  predicate Bounded(s: seq<int>, b: int) {
    forall k :: 0 <= k < |s| ==> s[k] <= b
  }

  lemma BoundedPermutation(r: seq<int>, t: seq<int>, b: int)
    requires multiset(r) == multiset(t) && Bounded(t, b)
    ensures Bounded(r, b)
  {
    forall k | 0 <= k < |r|
      ensures r[k] <= b
    {
      assert r[k] in multiset(t);
    }
  }

  function InsertInt(x: int, s: seq<int>): (r: seq<int>)
    requires Ascending(s)
    ensures |r| == |s| + 1
    ensures multiset(r) == multiset(s) + multiset{x}
    ensures Ascending(r)
  {
    if |s| == 0 then [x]
    else if s[|s| - 1] <= x then s + [x]
    else
      var init, last := s[..|s| - 1], s[|s| - 1];
      assert s == init + [last];
      var r' := InsertInt(x, init);
      assert Bounded(init + [x], last);
      BoundedPermutation(r', init + [x], last);
      r' + [last]
  }

  /** `block.sort()` on a list of addresses. */
  function SortInts(s: seq<int>): (r: seq<int>)
    ensures |r| == |s|
    ensures multiset(r) == multiset(s)
    ensures Ascending(r)
  {
    if |s| == 0 then []
    else
      assert s == s[..|s| - 1] + [s[|s| - 1]];
      InsertInt(s[|s| - 1], SortInts(s[..|s| - 1]))
  }

  /** The addresses of a bucket that has no `None` in it. */
  function Unwrap(bucket: seq<Option<int>>): (r: seq<int>)
    requires None !in bucket
    ensures |r| == |bucket|
    ensures forall k :: 0 <= k < |bucket| ==> bucket[k].Some? && r[k] == bucket[k].value
  {
    if |bucket| == 0 then [] else [bucket[0].value] + Unwrap(bucket[1..])
  }

  /** `_setup_sequential_block`: the sorted addresses give the base (the
      first) and the number of zero values (the last minus the first). A
      `None` address cannot be sorted against an int, nor be a `range`
      bound, and raises `TypeError`. */
  function SequentialLayoutOf(bucket: seq<Option<int>>): Result<Layout> {
    if |bucket| == 0 then Ok(Absent)
    else if None in bucket then Err(TypeError)
    else
      var sorted := SortInts(Unwrap(bucket));
      Ok(SequentialLayout(sorted[0], Repeat(0, sorted[|sorted| - 1] - sorted[0])))
  }

  /** The sorted list starts with the smallest element and ends with the largest. */
  lemma SortedEnds(s: seq<int>)
    requires |s| > 0
    ensures var r := SortInts(s);
      && r[0] in s && r[|r| - 1] in s
      && forall k :: 0 <= k < |s| ==> r[0] <= s[k] <= r[|r| - 1]
  {
    var r := SortInts(s);
    assert r[0] in multiset(s) && r[|r| - 1] in multiset(s);
    forall k | 0 <= k < |s|
      ensures r[0] <= s[k] <= r[|r| - 1]
    {
      assert s[k] in multiset(r);
      var j :| 0 <= j < |r| && r[j] == s[k];
    }
  }

  /** A sequential layout starts at the smallest address of the bucket and
      holds one zero per register up to, but excluding, the largest address:
      the register at the largest address lies outside the block. An empty
      bucket gives no block and a `None` address raises `TypeError`. */
  lemma SequentialLayoutShape(bucket: seq<Option<int>>)
    ensures |bucket| == 0 ==> SequentialLayoutOf(bucket) == Ok(Absent)
    ensures None in bucket ==> SequentialLayoutOf(bucket) == Err(TypeError)
    ensures |bucket| > 0 && None !in bucket ==>
      && SequentialLayoutOf(bucket).Ok?
      && var l := SequentialLayoutOf(bucket).value;
      && l.SequentialLayout?
      && Some(l.base) in bucket
      && (exists k :: 0 <= k < |bucket| && bucket[k].value == l.base + |l.cells|)
      && (forall k :: 0 <= k < |bucket| ==> l.base <= bucket[k].value <= l.base + |l.cells|)
      && (forall k :: 0 <= k < |l.cells| ==> l.cells[k] == 0)
  {
    if |bucket| > 0 && None !in bucket {
      SequentialLayoutBounds(bucket);
      SequentialLayoutTop(bucket);
    }
  }

  lemma SequentialLayoutBounds(bucket: seq<Option<int>>)
    requires |bucket| > 0 && None !in bucket
    ensures SequentialLayoutOf(bucket).Ok?
    ensures var l := SequentialLayoutOf(bucket).value;
      && l.SequentialLayout?
      && Some(l.base) in bucket
      && (forall k :: 0 <= k < |bucket| ==> l.base <= bucket[k].value <= l.base + |l.cells|)
      && (forall k :: 0 <= k < |l.cells| ==> l.cells[k] == 0)
  {
    BucketEnds(bucket);
    var r := SortInts(Unwrap(bucket));
    var l := SequentialLayoutOf(bucket).value;
    assert l.base == r[0] && r[0] <= bucket[0].value <= r[|r| - 1];
    assert l.base + |l.cells| == r[|r| - 1];
  }

  lemma SequentialLayoutTop(bucket: seq<Option<int>>)
    requires |bucket| > 0 && None !in bucket
    ensures SequentialLayoutOf(bucket).Ok?
    ensures var l := SequentialLayoutOf(bucket).value;
      l.SequentialLayout? && exists k :: 0 <= k < |bucket| && bucket[k].value == l.base + |l.cells|
  {
    BucketEnds(bucket);
    var r := SortInts(Unwrap(bucket));
    var l := SequentialLayoutOf(bucket).value;
    assert l.base == r[0] && r[0] <= bucket[0].value <= r[|r| - 1];
    assert l.base + |l.cells| == r[|r| - 1];
  }

  /** The first and the last of the sorted addresses are addresses of the
      bucket, and every address of the bucket lies between them. */
  lemma BucketEnds(bucket: seq<Option<int>>)
    requires |bucket| > 0 && None !in bucket
    ensures var r := SortInts(Unwrap(bucket));
      && Some(r[0]) in bucket
      && (exists k :: 0 <= k < |bucket| && bucket[k].value == r[|r| - 1])
      && (forall k :: 0 <= k < |bucket| ==> r[0] <= bucket[k].value <= r[|r| - 1])
  {
    var s := Unwrap(bucket);
    var r := SortInts(s);
    SortedEnds(s);
    BucketBounds(bucket, s, r[0], r[|r| - 1]);
  }

  lemma BucketBounds(bucket: seq<Option<int>>, s: seq<int>, lo: int, hi: int)
    requires None !in bucket && s == Unwrap(bucket)
    requires lo in s && hi in s && forall k :: 0 <= k < |s| ==> lo <= s[k] <= hi
    ensures Some(lo) in bucket
    ensures exists k :: 0 <= k < |bucket| && bucket[k].value == hi
    ensures forall k :: 0 <= k < |bucket| ==> lo <= bucket[k].value <= hi
  {
    var i :| 0 <= i < |s| && s[i] == lo;
    var j :| 0 <= j < |s| && s[j] == hi;
    assert bucket[i] == Some(lo);
    assert bucket[j].value == hi;
  }

  /** The layout of one bucket: a sparse context builds a sparse block, any
      other a sequential one. */
  function LayoutOf(bucket: seq<Option<int>>, sparse: bool): (r: Result<Layout>)
    ensures r.Err? ==> r.error == TypeError
  {
    if sparse then Ok(SparseLayoutOf(bucket)) else SequentialLayoutOf(bucket)
  }

  /** The layouts of the four buckets, built in the order `h`, `i`, `d`,
      `c`; the first `TypeError` aborts. */
  function Layouts(regs: seq<Descriptor>, sparse: bool): (r: Result<map<RegType, Layout>>)
    ensures r.Ok? ==> r.value.Keys == {HoldingRegister, InputRegister, DiscreteInput, Coil}
    ensures r.Err? ==> r.error == TypeError
  {
    var h :- LayoutOf(Bucket(regs, HoldingRegister), sparse);
    var i :- LayoutOf(Bucket(regs, InputRegister), sparse);
    var d :- LayoutOf(Bucket(regs, DiscreteInput), sparse);
    var c :- LayoutOf(Bucket(regs, Coil), sparse);
    Ok(map[HoldingRegister := h, InputRegister := i, DiscreteInput := d, Coil := c])
  }

  /** The four layouts are built one bucket at a time, and the first bucket
      whose layout fails decides the error. */
  lemma LayoutsSteps(regs: seq<Descriptor>, sparse: bool)
    ensures var h, i, d, c := LayoutOf(Bucket(regs, HoldingRegister), sparse), LayoutOf(Bucket(regs, InputRegister), sparse),
                              LayoutOf(Bucket(regs, DiscreteInput), sparse), LayoutOf(Bucket(regs, Coil), sparse);
      Layouts(regs, sparse) ==
        if h.Err? then Err(h.error) else if i.Err? then Err(i.error) else if d.Err? then Err(d.error)
        else if c.Err? then Err(c.error)
        else Ok(map[HoldingRegister := h.value, InputRegister := i.value, DiscreteInput := d.value, Coil := c.value])
  {
  }

  /** One bucket's layout fails exactly when the block is sequential and
      some register in the bucket has no address. */
  lemma LayoutOfFails(bucket: seq<Option<int>>, sparse: bool)
    ensures LayoutOf(bucket, sparse).Err? <==> !sparse && None in bucket
    ensures LayoutOf(bucket, sparse).Err? ==> LayoutOf(bucket, sparse).error == TypeError
  {
    if None in bucket {
      assert |bucket| > 0;
    }
  }

  /** A sequential context fails to build its blocks exactly when some
      register it would place in a sequential block has no address. */
  lemma LayoutsFail(regs: seq<Descriptor>, sparse: bool)
    ensures Layouts(regs, sparse).Err? <==>
      !sparse && exists k :: 0 <= k < |regs| && regs[k].address == None
    ensures Layouts(regs, sparse).Err? ==> Layouts(regs, sparse).error == TypeError
  {
    LayoutsErrBuckets(regs, sparse);
    NoneInBuckets(regs);
  }

  /** The layouts fail, with `TypeError`, exactly when the context is
      sequential and one of the four buckets holds `None`. */
  lemma LayoutsErrBuckets(regs: seq<Descriptor>, sparse: bool)
    ensures Layouts(regs, sparse).Err? <==>
      !sparse && (None in Bucket(regs, HoldingRegister) || None in Bucket(regs, InputRegister)
                  || None in Bucket(regs, DiscreteInput) || None in Bucket(regs, Coil))
    ensures Layouts(regs, sparse).Err? ==> Layouts(regs, sparse).error == TypeError
  {
    LayoutsSteps(regs, sparse);
    LayoutOfFails(Bucket(regs, HoldingRegister), sparse);
    LayoutOfFails(Bucket(regs, InputRegister), sparse);
    LayoutOfFails(Bucket(regs, DiscreteInput), sparse);
    LayoutOfFails(Bucket(regs, Coil), sparse);
  }

  /** Some bucket holds `None` exactly when some descriptor has no address. */
  lemma NoneInBuckets(regs: seq<Descriptor>)
    ensures (None in Bucket(regs, HoldingRegister) || None in Bucket(regs, InputRegister)
             || None in Bucket(regs, DiscreteInput) || None in Bucket(regs, Coil))
        <==> exists k :: 0 <= k < |regs| && regs[k].address == None
  {
    BucketMembers(regs, HoldingRegister, None);
    BucketMembers(regs, InputRegister, None);
    BucketMembers(regs, DiscreteInput, None);
    BucketMembers(regs, Coil, None);
    if exists k :: 0 <= k < |regs| && regs[k].address == None {
      var k :| 0 <= k < |regs| && regs[k].address == None;
      assert None in Bucket(regs, BucketOf(regs[k]));
    }
  }

  /** The addresses 5, 9 and 7 in one bucket: registers 5 to 8 in a sequential
      block (register 9 is left out). */
  lemma SequentialLayoutExample(b: seq<Option<int>>)
    requires b == [Some(5), Some(9), Some(7)]
    ensures SequentialLayoutOf(b) == Ok(SequentialLayout(5, [0, 0, 0, 0]))
  {
    SequentialLayoutShape(b);
    var l := SequentialLayoutOf(b).value;
    assert l.base <= b[0].value && l.base + |l.cells| >= b[1].value;
    assert l.base == 5 && |l.cells| == 4;
    assert l.cells == [0, 0, 0, 0];
  }

  /** The same bucket in a sparse block: exactly the three addresses. */
  lemma SparseLayoutExample()
    ensures SparseLayoutOf([Some(5), Some(9), Some(7)]) == SparseLayout(map[Some(5) := 0, Some(7) := 0, Some(9) := 0])
  {
    var b := [Some(5), Some(9), Some(7)];
    SparseLayoutShape(b);
    assert SparseLayoutOf(b).zeros == map[Some(5) := 0, Some(7) := 0, Some(9) := 0];
  }
}
