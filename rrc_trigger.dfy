/**
 * The RRC measurement trigger: a module bound to one tenant and one UE
 * (named by its IMSI) that, on every tick, resolves the UE's base station
 * (VBS) and sends it one measurement request per configured measurement.
 *
 * The runtime's tenant registry is a map passed to `RunOnce`; writes to
 * the VBS connection are appended to `written`; `unload()` sets the
 * `unloaded` flag; invoking the registered callback appends the module
 * to `callbackArgs`.
 */
module RrcTrigger {
  import opened Wrappers
  import opened BigEndian
  import opened PyInt
  import opened RrcWire

  /** Action code of an RRC measurement request (`EP_ACT_RRC_MEASUREMENT`). */
  const EP_ACT_RRC_MEASUREMENT: int := 0x05

  /**
   * The protocol constants the request header carries and that are defined
   * outside this component: the trigger message type, the protocol
   * version, the request direction and the "add" operation code.
   */
  datatype Protocol = Protocol(trigType: int, version: int, dirRequest: int, opAdd: int)

  /** A base station as seen at the moment of the tick. */
  datatype Vbs = Vbs(addr: nat, enbId: int, seqNo: int, online: bool)

  /**
   * A UE: the VBS it is attached to (if any), its RNTI and its serving
   * cell's PCI. Every UE here has a serving cell; one without a cell is
   * not represented.
   */
  datatype Ue = Ue(vbs: Option<Vbs>, rnti: int, pci: int)

  /** A tenant's UEs, keyed by IMSI. */
  datatype Tenant = Tenant(ues: map<int, Ue>)

  type TenantId = string

  /** One configured measurement, after integer coercion. */
  datatype Measurement = Measurement(earfcn: int, interval: int, maxCells: int, maxMeas: int)

  /** One element of the list given to the `measurements` setter: a JSON object. */
  type RawMeasurement = map<string, RawValue>

  datatype SetterFault = MissingKey | NotAnInteger(error: CoercionError)

  /** Why the setter stopped: which element, which key, and what went wrong. */
  datatype SetterError = SetterError(index: nat, key: string, fault: SetterFault)

  // ---------------------------------------------------------------------
  // Coercion of configured measurements

  function CoerceField(raw: RawMeasurement, key: string, index: nat): (r: Result<int, SetterError>)
    ensures key !in raw ==> r == Failure(SetterError(index, key, MissingKey))
    ensures key in raw ==> (r.Success? <==> ToInt(raw[key]).Success?)
    ensures r.Success? ==> key in raw && r.value == ToInt(raw[key]).value
    ensures key in raw && ToInt(raw[key]).Failure? ==>
      r == Failure(SetterError(index, key, NotAnInteger(ToInt(raw[key]).error)))
  {
    if key !in raw then Failure(SetterError(index, key, MissingKey))
    else match ToInt(raw[key])
      case Success(i) => Success(i)
      case Failure(e) => Failure(SetterError(index, key, NotAnInteger(e)))
  }

  /** The four fields in the order the source evaluates them; the first failure is the one reported. */
  function CoerceMeasurement(raw: RawMeasurement, index: nat): (r: Result<Measurement, SetterError>)
    ensures r.Success? <==>
      (CoerceField(raw, "earfcn", index).Success? && CoerceField(raw, "interval", index).Success? &&
       CoerceField(raw, "max_cells", index).Success? && CoerceField(raw, "max_meas", index).Success?)
    ensures r.Success? ==> r.value == Measurement(
      ToInt(raw["earfcn"]).value, ToInt(raw["interval"]).value,
      ToInt(raw["max_cells"]).value, ToInt(raw["max_meas"]).value)
    ensures r.Failure? ==> r.error.index == index
    ensures CoerceField(raw, "earfcn", index).Failure? ==>
      r == Failure(CoerceField(raw, "earfcn", index).error)
    ensures (CoerceField(raw, "earfcn", index).Success? && CoerceField(raw, "interval", index).Failure?) ==>
      r == Failure(CoerceField(raw, "interval", index).error)
    ensures (CoerceField(raw, "earfcn", index).Success? && CoerceField(raw, "interval", index).Success? &&
             CoerceField(raw, "max_cells", index).Failure?) ==>
      r == Failure(CoerceField(raw, "max_cells", index).error)
    ensures (CoerceField(raw, "earfcn", index).Success? && CoerceField(raw, "interval", index).Success? &&
             CoerceField(raw, "max_cells", index).Success? && CoerceField(raw, "max_meas", index).Failure?) ==>
      r == Failure(CoerceField(raw, "max_meas", index).error)
  {
    match CoerceField(raw, "earfcn", index)
    case Failure(e) => Failure(e)
    case Success(earfcn) =>
      match CoerceField(raw, "interval", index)
      case Failure(e) => Failure(e)
      case Success(interval) =>
        match CoerceField(raw, "max_cells", index)
        case Failure(e) => Failure(e)
        case Success(maxCells) =>
          match CoerceField(raw, "max_meas", index)
          case Failure(e) => Failure(e)
          case Success(maxMeas) => Success(Measurement(earfcn, interval, maxCells, maxMeas))
  }

  /** The records the setter appends and the error it stops with, if any. */
  datatype Coerced = Coerced(records: seq<Measurement>, error: Option<SetterError>)

  /** Coerces `value[i..]` front to back, stopping at the first element that fails. */
  function CoerceFrom(value: seq<RawMeasurement>, i: nat): (c: Coerced)
    requires i <= |value|
    ensures |c.records| <= |value| - i
    ensures c.error.Some? ==> i <= c.error.value.index < |value| && |c.records| == c.error.value.index - i
    ensures c.error.None? ==> |c.records| == |value| - i
    decreases |value| - i
  {
    if i == |value| then Coerced([], None)
    else match CoerceMeasurement(value[i], i)
      case Failure(e) => Coerced([], Some(e))
      case Success(m) =>
        var rest := CoerceFrom(value, i + 1);
        Coerced([m] + rest.records, rest.error)
  }

  /**
   * What the setter appends: one record per element, in input order, up
   * to the first element that fails to coerce; that element and the rest
   * contribute nothing, and the failure is reported.
   */
  lemma {:induction false} CoerceFromSpec(value: seq<RawMeasurement>, i: nat)
    requires i <= |value|
    ensures var c := CoerceFrom(value, i);
      var stop := if c.error.Some? then c.error.value.index else |value|;
      i <= stop <= |value| &&
      |c.records| == stop - i &&
      (forall k :: i <= k < stop ==>
        CoerceMeasurement(value[k], k).Success? && c.records[k - i] == CoerceMeasurement(value[k], k).value) &&
      (c.error.Some? ==> stop < |value| && CoerceMeasurement(value[stop], stop) == Failure(c.error.value))
    decreases |value| - i
  {
    if i < |value| && CoerceMeasurement(value[i], i).Success? {
      CoerceFromSpec(value, i + 1);
    }
  }

  /** The setter succeeds exactly when every element coerces, and then appends one record per element. */
  lemma CoerceAllSucceeds(value: seq<RawMeasurement>)
    ensures CoerceFrom(value, 0).error.None? <==>
      forall k :: 0 <= k < |value| ==> CoerceMeasurement(value[k], k).Success?
    ensures CoerceFrom(value, 0).error.None? ==>
      |CoerceFrom(value, 0).records| == |value| &&
      forall k :: 0 <= k < |value| ==> CoerceFrom(value, 0).records[k] == CoerceMeasurement(value[k], k).value
  {
    var c := CoerceFrom(value, 0);
    CoerceFromSpec(value, 0);
    if c.error.Some? {
      var stop := c.error.value.index;
      assert CoerceMeasurement(value[stop], stop).Failure?;
    }
  }

  // ---------------------------------------------------------------------
  // Resolving tenant, UE and VBS

  datatype Resolution =
    | TenantMissing
    | UeMissing
    | VbsUnavailable
    | VbsAttributeError   // the log call dereferences a missing VBS
    | Resolved(ue: Ue, vbs: Vbs)

  /**
   * The lookups of `run_once` as written: when the UE has no VBS, the
   * log message reads `ue.vbs.addr` and the tick raises instead of
   * unloading the module. (`Vbs.addr` is only that log argument; no
   * other behaviour reads it.)
   */
  function ResolveAsWritten(tenants: map<TenantId, Tenant>, tenantId: TenantId, imsi: Option<int>): (r: Resolution)
    ensures r == VbsAttributeError <==>
      tenantId in tenants && imsi.Some? && imsi.value in tenants[tenantId].ues &&
      tenants[tenantId].ues[imsi.value].vbs.None?
    ensures r.Resolved? ==> r.vbs.online
  {
    if tenantId !in tenants then TenantMissing
    else if imsi.None? || imsi.value !in tenants[tenantId].ues then UeMissing
    else
      var ue := tenants[tenantId].ues[imsi.value];
      if ue.vbs.None? then VbsAttributeError
      else if !ue.vbs.value.online then VbsUnavailable
      else Resolved(ue, ue.vbs.value)
  }

  /**
   * The lookups as intended: a UE without a VBS unloads the module like an
   * offline VBS does. `RunOnce` follows this definition.
   */
  function Resolve(tenants: map<TenantId, Tenant>, tenantId: TenantId, imsi: Option<int>): (r: Resolution)
    ensures !r.VbsAttributeError?
    ensures r.Resolved? <==>
      tenantId in tenants && imsi.Some? && imsi.value in tenants[tenantId].ues &&
      tenants[tenantId].ues[imsi.value].vbs.Some? && tenants[tenantId].ues[imsi.value].vbs.value.online
    ensures r.Resolved? ==>
      r.ue == tenants[tenantId].ues[imsi.value] && r.ue.vbs == Some(r.vbs) && r.vbs.online
  {
    if tenantId !in tenants then TenantMissing
    else if imsi.None? || imsi.value !in tenants[tenantId].ues then UeMissing
    else
      var ue := tenants[tenantId].ues[imsi.value];
      if ue.vbs.None? || !ue.vbs.value.online then VbsUnavailable
      else Resolved(ue, ue.vbs.value)
  }

  /** The two definitions disagree exactly on a UE without a VBS. */
  lemma ResolveAsWrittenDiffers(tenants: map<TenantId, Tenant>, tenantId: TenantId, imsi: Option<int>)
    ensures ResolveAsWritten(tenants, tenantId, imsi) != Resolve(tenants, tenantId, imsi) <==>
      ResolveAsWritten(tenants, tenantId, imsi) == VbsAttributeError
    ensures ResolveAsWritten(tenants, tenantId, imsi) == VbsAttributeError ==>
      Resolve(tenants, tenantId, imsi) == VbsUnavailable
  {
  }

  /** A concrete input on which the code as written raises: a known UE that is attached to no VBS. */
  lemma UeWithoutVbsRaises()
    ensures var tenants := map["t" := Tenant(map[1 := Ue(None, 7, 3)])];
      ResolveAsWritten(tenants, "t", Some(1)) == VbsAttributeError &&
      Resolve(tenants, "t", Some(1)) == VbsUnavailable
  {
  }

  // ---------------------------------------------------------------------
  // Building the requests

  /** The i-th request of a tick, for measurement `m`. */
  function RequestFor(proto: Protocol, v: Vbs, ue: Ue, moduleId: int, i: nat, m: Measurement): (r: RrcRequest)
    ensures HeaderFits(proto, v, ue, moduleId) && MeasurementFits(m) ==> (WellFormed(r) <==> i < 0x100)
  {
    RrcRequest(
      length := REQUEST_SIZE, msgType := proto.trigType, version := proto.version,
      enbId := v.enbId, cellId := ue.pci, modId := moduleId, seqNo := v.seqNo,
      action := EP_ACT_RRC_MEASUREMENT, dir := proto.dirRequest, op := proto.opAdd,
      measId := i, rnti := ue.rnti,
      earfcn := m.earfcn, interval := m.interval, maxCells := m.maxCells, maxMeas := m.maxMeas)
  }

  /** One request per configured measurement, in configuration order. */
  function Requests(proto: Protocol, v: Vbs, ue: Ue, moduleId: int, ms: seq<Measurement>): (reqs: seq<RrcRequest>)
    ensures |reqs| == |ms|
  {
    seq(|ms|, i requires 0 <= i < |ms| => RequestFor(proto, v, ue, moduleId, i, ms[i]))
  }

  /**
   * The i-th request carries meas_id i whatever the measurement holds, the
   * constant header fields, the identifiers of the resolved VBS, UE and
   * module, and the four values of the i-th measurement.
   */
  lemma RequestsFields(proto: Protocol, v: Vbs, ue: Ue, moduleId: int, ms: seq<Measurement>, i: nat)
    requires i < |ms|
    ensures var r := Requests(proto, v, ue, moduleId, ms)[i];
      r.measId == i && r.length == REQUEST_SIZE && r.msgType == proto.trigType &&
      r.version == proto.version && r.action == EP_ACT_RRC_MEASUREMENT &&
      r.dir == proto.dirRequest && r.op == proto.opAdd &&
      r.enbId == v.enbId && r.seqNo == v.seqNo && r.cellId == ue.pci && r.rnti == ue.rnti &&
      r.modId == moduleId &&
      r.earfcn == ms[i].earfcn && r.interval == ms[i].interval &&
      r.maxCells == ms[i].maxCells && r.maxMeas == ms[i].maxMeas
  {
  }

  /** How many requests, from the front, fit their wire widths; the encoder raises on the first that does not. */
  function BuiltCount(reqs: seq<RrcRequest>): (k: nat)
    ensures k <= |reqs|
    ensures forall j :: 0 <= j < k ==> WellFormed(reqs[j])
    ensures k < |reqs| ==> !WellFormed(reqs[k])
  {
    if reqs == [] || !WellFormed(reqs[0]) then 0 else 1 + BuiltCount(reqs[1..])
  }

  function EncodeAll(reqs: seq<RrcRequest>): (frames: seq<seq<byte>>)
    requires forall j :: 0 <= j < |reqs| ==> WellFormed(reqs[j])
    ensures |frames| == |reqs|
  {
    seq(|reqs|, j requires 0 <= j < |reqs| => EncodeRequest(reqs[j]))
  }

  /** The frames a tick writes once tenant, UE and VBS are resolved. */
  function TickFrames(proto: Protocol, v: Vbs, ue: Ue, moduleId: int, ms: seq<Measurement>): (frames: seq<seq<byte>>)
    ensures |frames| <= |ms|
    ensures forall j :: 0 <= j < |frames| ==> |frames[j]| == REQUEST_SIZE
  {
    var reqs := Requests(proto, v, ue, moduleId, ms);
    EncodeAll(reqs[..BuiltCount(reqs)])
  }

  /** The header fields that do not come from a measurement fit their widths. */
  predicate HeaderFits(proto: Protocol, v: Vbs, ue: Ue, moduleId: int) {
    FitsU8(proto.trigType) && FitsU8(proto.version) && FitsU8(proto.dirRequest) &&
    FitsU8(proto.opAdd) && FitsU32(v.enbId) && FitsU32(v.seqNo) && FitsU16(ue.pci) &&
    FitsU16(ue.rnti) && FitsU32(moduleId)
  }

  predicate MeasurementFits(m: Measurement) {
    FitsU16(m.earfcn) && FitsU16(m.interval) && FitsU16(m.maxCells) && FitsU16(m.maxMeas)
  }

  /**
   * Every frame a tick writes is 34 bytes, the value of its own length
   * field, and decodes to the request built for that position: the i-th
   * frame carries meas_id i and the i-th measurement's values.
   */
  lemma TickFramesDecode(proto: Protocol, v: Vbs, ue: Ue, moduleId: int, ms: seq<Measurement>, i: nat)
    requires i < |TickFrames(proto, v, ue, moduleId, ms)|
    ensures var f := TickFrames(proto, v, ue, moduleId, ms)[i];
      var reqs := Requests(proto, v, ue, moduleId, ms);
      |f| == REQUEST_SIZE == reqs[i].length &&
      DecodeRequest(f) == Success(reqs[i]) &&
      DecodeRequest(f).value.measId == i &&
      DecodeRequest(f).value.earfcn == ms[i].earfcn &&
      DecodeRequest(f).value.interval == ms[i].interval &&
      DecodeRequest(f).value.maxCells == ms[i].maxCells &&
      DecodeRequest(f).value.maxMeas == ms[i].maxMeas
  {
  }

  /**
   * When the header fits and every measurement value fits 16 bits, a tick
   * writes one frame per measurement as long as there are at most 256 of
   * them; it never writes more than 256, since meas_id is one byte.
   */
  lemma TickFramesCount(proto: Protocol, v: Vbs, ue: Ue, moduleId: int, ms: seq<Measurement>)
    ensures |TickFrames(proto, v, ue, moduleId, ms)| <= 0x100
    ensures HeaderFits(proto, v, ue, moduleId) && (forall j :: 0 <= j < |ms| ==> MeasurementFits(ms[j])) ==>
      |TickFrames(proto, v, ue, moduleId, ms)| == if |ms| <= 0x100 then |ms| else 0x100
  {
    var reqs := Requests(proto, v, ue, moduleId, ms);
    var k := BuiltCount(reqs);
    if |reqs| > 0x100 {
      assert reqs[0x100].measId == 0x100;
      assert !WellFormed(reqs[0x100]);
    }
  }

  /** The outcome of one tick: unloaded, all requests sent, or the encoder raised at request `index`. */
  datatype TickOutcome = Unloaded | Sent | BuildFailed(index: nat)

  // ---------------------------------------------------------------------
  // The trigger module

  class RrcMeasurements {
    /** Identifier given by the worker when the module was registered. */
    const moduleId: int
    const tenantId: TenantId

    var imsi: Option<int>
    var measurements: seq<Measurement>
    /** Received reports; nothing in this component ever adds to them. */
    var results: seq<RrcEntry>
    /** The VBS the last successful tick resolved. */
    var vbs: Option<Vbs>
    var unloaded: bool
    /** Frames written to VBS connections, in write order. */
    var written: seq<seq<byte>>
    /** The argument of every callback invocation, in order. */
    var callbackArgs: seq<RrcMeasurements>

    constructor(moduleId: int, tenantId: TenantId)
      ensures this.moduleId == moduleId && this.tenantId == tenantId
      ensures imsi == None && measurements == [] && results == [] && vbs == None
      ensures !unloaded && written == [] && callbackArgs == []
    {
      this.moduleId := moduleId;
      this.tenantId := tenantId;
      imsi := None;
      measurements := [];
      results := [];
      vbs := None;
      unloaded := false;
      written := [];
      callbackArgs := [];
    }

    /**
     * Module equality: the base module's equality (`baseEqual`, defined
     * outside this component), the same IMSI and the same measurement list.
     */
    predicate Equals(other: RrcMeasurements, baseEqual: bool)
      reads this, other
      ensures Equals(other, baseEqual) ==>
        baseEqual && imsi == other.imsi && |measurements| == |other.measurements|
    {
      baseEqual && imsi == other.imsi && measurements == other.measurements
    }

    /** The `imsi` setter: stores `int(value)`; on failure `imsi` is left as it was. */
    method SetImsi(value: RawValue) returns (err: Option<CoercionError>)
      modifies this`imsi
      ensures ToInt(value).Success? ==> imsi == Some(ToInt(value).value) && err == None
      ensures ToInt(value).Failure? ==> imsi == old(imsi) && err == Some(ToInt(value).error)
    {
      match ToInt(value)
      case Success(i) =>
        imsi := Some(i);
        err := None;
      case Failure(e) =>
        err := Some(e);
    }

    /**
     * The `measurements` setter: appends one coerced record per element
     * after the existing ones. An element that fails to coerce stops the
     * loop; the records appended before it stay.
     */
    method SetMeasurements(value: seq<RawMeasurement>) returns (err: Option<SetterError>)
      modifies this`measurements
      ensures measurements == old(measurements) + CoerceFrom(value, 0).records
      ensures err == CoerceFrom(value, 0).error
    {
      var i := 0;
      while i < |value|
        invariant 0 <= i <= |value|
        invariant old(measurements) + CoerceFrom(value, 0).records == measurements + CoerceFrom(value, i).records
        invariant CoerceFrom(value, 0).error == CoerceFrom(value, i).error
      {
        match CoerceMeasurement(value[i], i)
        case Failure(e) =>
          assert CoerceFrom(value, i).records == [];
          return Some(e);
        case Success(m) =>
          measurements := measurements + [m];
          i := i + 1;
      }
      err := None;
    }

    /**
     * One tick. Resolves the tenant, then the UE, then its VBS, and unloads
     * when any is missing or the VBS is offline. Otherwise records the VBS
     * and writes one encoded request per measurement, with meas_id = i;
     * if a request does not fit the wire layout the encoder raises and the
     * tick ends after the frames written so far.
     */
    method RunOnce(tenants: map<TenantId, Tenant>, proto: Protocol) returns (outcome: TickOutcome)
      modifies this`vbs, this`unloaded, this`written
      ensures !Resolve(tenants, tenantId, imsi).Resolved? ==>
        outcome == Unloaded && unloaded && vbs == old(vbs) && written == old(written)
      ensures Resolve(tenants, tenantId, imsi).Resolved? ==>
        var res := Resolve(tenants, tenantId, imsi);
        var reqs := Requests(proto, res.vbs, res.ue, moduleId, measurements);
        vbs == Some(res.vbs) && unloaded == old(unloaded) &&
        written == old(written) + TickFrames(proto, res.vbs, res.ue, moduleId, measurements) &&
        outcome == (if BuiltCount(reqs) == |reqs| then Sent else BuildFailed(BuiltCount(reqs)))
    {
      if tenantId !in tenants {
        unloaded := true;
        return Unloaded;
      }
      var tenant := tenants[tenantId];
      if imsi.None? || imsi.value !in tenant.ues {
        unloaded := true;
        return Unloaded;
      }
      var ue := tenant.ues[imsi.value];
      // The source's log call here reads the address of a VBS that may be
      // missing and raises; this models the intended unload instead
      // (see ResolveAsWritten).
      if ue.vbs.None? || !ue.vbs.value.online {
        unloaded := true;
        return Unloaded;
      }
      vbs := ue.vbs;
      assert Resolve(tenants, tenantId, imsi) == Resolved(ue, ue.vbs.value);
      outcome := WriteRequests(proto, ue.vbs.value, ue);
    }

    /**
     * The loop of a tick: builds, encodes and writes the request for each
     * measurement in turn, with meas_id = i, stopping where the encoder
     * raises.
     */
    method WriteRequests(proto: Protocol, v: Vbs, ue: Ue) returns (outcome: TickOutcome)
      modifies this`written
      ensures var reqs := Requests(proto, v, ue, moduleId, measurements);
        written == old(written) + TickFrames(proto, v, ue, moduleId, measurements) &&
        outcome == (if BuiltCount(reqs) == |reqs| then Sent else BuildFailed(BuiltCount(reqs)))
    {
      ghost var reqs := Requests(proto, v, ue, moduleId, measurements);
      ghost var k := BuiltCount(reqs);
      var i := 0;
      while i < |measurements|
        invariant 0 <= i <= k
        invariant written == old(written) + EncodeAll(reqs[..i])
      {
        var request := RequestFor(proto, v, ue, moduleId, i, measurements[i]);
        assert request == reqs[i];
        if !WellFormed(request) {
          return BuildFailed(i);
        }
        assert reqs[..i + 1] == reqs[..i] + [reqs[i]];
        written := written + [EncodeRequest(request)];
        i := i + 1;
      }
      assert reqs[..i] == reqs;
      return Sent;
    }

    /** An incoming report: the callback is invoked once, with this module; nothing else changes. */
    method HandleResponse(meas: RrcResponse)
      modifies this`callbackArgs
      ensures callbackArgs == old(callbackArgs) + [this]
      ensures results == old(results) && measurements == old(measurements) && vbs == old(vbs)
    {
      callbackArgs := callbackArgs + [this];
    }
  }

  /** Equality holds only between modules with equal IMSIs and the same measurements, element by element, in order. */
  lemma EqualsElementwise(a: RrcMeasurements, b: RrcMeasurements, baseEqual: bool)
    ensures a.Equals(b, baseEqual) <==>
      baseEqual && a.imsi == b.imsi && |a.measurements| == |b.measurements| &&
      forall k :: 0 <= k < |a.measurements| ==> a.measurements[k] == b.measurements[k]
  {
  }

  /** The same measurements in another order make the modules unequal. */
  lemma EqualsRespectsOrder(a: RrcMeasurements, b: RrcMeasurements, m0: Measurement, m1: Measurement)
    requires m0 != m1 && a.measurements == [m0, m1] && b.measurements == [m1, m0]
    ensures !a.Equals(b, true)
  {
  }
}
