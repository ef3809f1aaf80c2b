// The decoding pipeline: a raw frame is classified, its parity checked, the
// aircraft looked up in the world database, the message appended to the history of
// its address, the aircraft rebuilt from that history and handed to every transporter.
//
// The expiring history store is an unbounded map from address to message sequence;
// the transporters are identities, and the trace of hand-overs stands for their calls.

module Decoder {
  import opened Text
  import opened ModeS
  import opened AircraftRecord
  import LongMessage
  import Aggregation

  datatype ProcessError =
    | ErrFrame(e: ModeS.Error)
    | ErrReferenceAircraftNotFound

  datatype Transporter = Transporter(id: nat)

  /** One call of `Transport`. */
  datatype Delivery = Delivery(transporter: Transporter, aircraft: Aircraft)

  /** The options of `New`. */
  datatype Configurator =
    | WithAircraftWorldDatabase(database: map<nat, Aggregation.Entry>)
    | WithDatabaseLifetime(lifetime: int)
    | WithTransporter(transporter: Transporter)

  /** The settings the options leave, applied in order to an empty processor. */
  datatype Settings = Settings(
    registry: map<nat, Aggregation.Entry>,
    dbLifeTime: int,
    transporters: seq<Transporter>)

  function Configure(s: Settings, opt: Configurator): Settings
  {
    match opt
    case WithAircraftWorldDatabase(db) => s.(registry := db)
    case WithDatabaseLifetime(d) => s.(dbLifeTime := d)
    case WithTransporter(t) => s.(transporters := s.transporters + [t])
  }

  function Configured(opts: seq<Configurator>): Settings
  {
    if opts == [] then Settings(map[], 0, [])
    else Configure(Configured(opts[..|opts| - 1]), opts[|opts| - 1])
  }

  /** The transporters named by the options, in order. */
  function TransportersOf(opts: seq<Configurator>): (r: seq<Transporter>)
    ensures |r| <= |opts|
  {
    if opts == [] then []
    else
      var prev := TransportersOf(opts[..|opts| - 1]);
      match opts[|opts| - 1]
      case WithTransporter(t) => prev + [t]
      case _ => prev
  }

  /** `WithTransporter` appends: the transporters are those of the options, in order. */
  lemma {:induction false} ConfiguredTransporters(opts: seq<Configurator>)
    ensures Configured(opts).transporters == TransportersOf(opts)
  {
    if opts != [] {
      ConfiguredTransporters(opts[..|opts| - 1]);
    }
  }

  /** A later `WithDatabaseLifetime` overrides an earlier one, whatever follows it that
      is not another lifetime; likewise for the world database. */
  lemma {:induction false} LaterLifetimeWins(opts: seq<Configurator>, i: nat)
    requires i < |opts| && opts[i].WithDatabaseLifetime?
    requires forall j :: i < j < |opts| ==> !opts[j].WithDatabaseLifetime?
    ensures Configured(opts).dbLifeTime == opts[i].lifetime
    decreases |opts|
  {
    if i < |opts| - 1 {
      LaterLifetimeWins(opts[..|opts| - 1], i);
    }
  }

  lemma {:induction false} LaterDatabaseWins(opts: seq<Configurator>, i: nat)
    requires i < |opts| && opts[i].WithAircraftWorldDatabase?
    requires forall j :: i < j < |opts| ==> !opts[j].WithAircraftWorldDatabase?
    ensures Configured(opts).registry == opts[i].database
    decreases |opts|
  {
    if i < |opts| - 1 {
      LaterDatabaseWins(opts[..|opts| - 1], i);
    }
  }

  // ---------------------------------------------------------------------------
  // The parity gate

  /** The gate as written: the parity is checked only for a long message, whose
      formats `CheckSum` never checks. */
  function CrcGateAsWritten(q: QualifiedMessage): Option<ModeS.Error>
    requires |q.frame| >= 1
    requires HasParityCheck(DownlinkFormat(q.frame)) ==> 3 <= |q.frame| <= 35
  {
    if q.LongMessage? then CheckSum(q.frame) else None
  }

  /** As written, no classified frame is ever refused for its parity. */
  lemma CrcGateAsWrittenNeverFails(data: Frame)
    requires |data| >= 1 && Qualify(data).Ok?
    ensures CrcGateAsWritten(Qualify(data).value) == None
  {
  }

  /** The gate as intended: the parity of an extended squitter is checked. */
  function CrcGate(q: QualifiedMessage): (r: Option<ModeS.Error>)
    requires |q.frame| >= 1
    requires HasParityCheck(DownlinkFormat(q.frame)) ==> 3 <= |q.frame| <= 35
    ensures r.Some? <==> q.ExtendedSquitter? && HasParityCheck(DownlinkFormat(q.frame))
                         && Crc.SerialChecksum(Payload(q.frame), Crc.PolynomCRC)
                            != Bits.ReadBits(q.frame, 8 * (|q.frame| - 3), 24)
  {
    if q.ExtendedSquitter? then CheckSum(q.frame) else None
  }

  /** A DF 17 or DF 18 frame whose parity field differs from the CRC-24 remainder of its
      payload is refused. */
  lemma CrcGateRejectsWrongParity(data: Frame)
    requires |data| == 14
    requires DownlinkFormat(data) == DownlinkFormatExtendedSquitter
             || DownlinkFormat(data) == DownlinkFormatExtendedSquitterNonTransponder
    requires Crc.SerialChecksum(Payload(data), Crc.PolynomCRC) != Bits.ReadBits(data, 8 * 11, 24)
    ensures Qualify(data) == Ok(ExtendedSquitter(data))
    ensures CrcGate(ExtendedSquitter(data)).Some?
  {
  }

  // ---------------------------------------------------------------------------
  // Processing one frame

  /** The address a message is filed under: 0 for a long message; the other kinds read
      it in code that is not part of this model, the parameter `addressOf`. */
  function AircraftAddress(q: QualifiedMessage, addressOf: QualifiedMessage -> nat): nat
  {
    if q.LongMessage? then LongMessage.AircraftAddress(q.frame) else addressOf(q)
  }

  /** Every history is non-empty and made of classified messages. */
  predicate ValidStore(store: map<nat, seq<QualifiedMessage>>)
  {
    forall k :: k in store ==> |store[k]| > 0 && Aggregation.WellFormed(store[k])
  }

  function Elements(store: map<nat, seq<QualifiedMessage>>, k: nat): seq<QualifiedMessage>
  {
    if k in store then store[k] else []
  }

  /** One hand-over of `aircraft` per transporter, in order. */
  function Deliveries(transporters: seq<Transporter>, aircraft: Aircraft): (r: seq<Delivery>)
    ensures |r| == |transporters|
    ensures forall i :: 0 <= i < |r| ==> r[i] == Delivery(transporters[i], aircraft)
  {
    if transporters == [] then []
    else Deliveries(transporters[..|transporters| - 1], aircraft)
         + [Delivery(transporters[|transporters| - 1], aircraft)]
  }

  /** The state `Process` changes: the history store and the trace of hand-overs. */
  datatype State = State(store: map<nat, seq<QualifiedMessage>>, delivered: seq<Delivery>)

  /** What `Process` does to the state and returns, for the given settings. */
  function Step(s: Settings, st: State, data: Frame, env: Aggregation.Env,
                addressOf: QualifiedMessage -> nat): (r: (State, Option<ProcessError>))
    requires |data| >= 1 && ValidStore(st.store)
  {
    match Qualify(data)
    case Err(e) => (st, Some(ErrFrame(e)))
    case Ok(squitter) =>
      match CrcGate(squitter)
      case Some(e) => (st, Some(ErrFrame(e)))
      case None =>
        var icaoAddress := AircraftAddress(squitter, addressOf);
        if icaoAddress !in s.registry then (st, Some(ErrReferenceAircraftNotFound))
        else
          var history := Elements(st.store, icaoAddress) + [squitter];
          var aircraft := Aggregation.Built(env, history, s.registry[icaoAddress]);
          (State(st.store[icaoAddress := history], st.delivered + Deliveries(s.transporters, aircraft)), None)
  }

  /** Every error leaves the store and the transporters untouched. */
  lemma ErrorsChangeNothing(s: Settings, st: State, data: Frame, env: Aggregation.Env,
                            addressOf: QualifiedMessage -> nat)
    requires |data| >= 1 && ValidStore(st.store)
    ensures Step(s, st, data, env, addressOf).1.Some? ==> Step(s, st, data, env, addressOf).0 == st
  {
  }

  /** The error cases in the order they are tested: classification, parity, registry. */
  lemma ErrorOrder(s: Settings, st: State, data: Frame, env: Aggregation.Env,
                   addressOf: QualifiedMessage -> nat)
    requires |data| >= 1 && ValidStore(st.store)
    ensures Qualify(data).Err? ==> Step(s, st, data, env, addressOf).1 == Some(ErrFrame(Qualify(data).error))
    ensures Qualify(data).Ok? && CrcGate(Qualify(data).value).Some? ==>
              Step(s, st, data, env, addressOf).1 == Some(ErrFrame(CrcGate(Qualify(data).value).value))
    ensures Qualify(data).Ok? && CrcGate(Qualify(data).value).None?
            && AircraftAddress(Qualify(data).value, addressOf) !in s.registry ==>
              Step(s, st, data, env, addressOf).1 == Some(ErrReferenceAircraftNotFound)
  {
  }

  /** On success exactly one message is appended, under its address, and nothing else
      in the store changes; every transporter receives the aircraft built from the whole
      new history, once each and in order. */
  lemma SuccessAppendsAndDelivers(s: Settings, st: State, data: Frame, env: Aggregation.Env,
                                  addressOf: QualifiedMessage -> nat)
    requires |data| >= 1 && ValidStore(st.store)
    requires Step(s, st, data, env, addressOf).1.None?
    ensures Qualify(data).Ok?
    ensures var q := Qualify(data).value;
      var k := AircraftAddress(q, addressOf);
      var st' := Step(s, st, data, env, addressOf).0;
      k in s.registry
      && st'.store.Keys == st.store.Keys + {k}
      && st'.store[k] == Elements(st.store, k) + [q]
      && (forall k' :: k' in st.store && k' != k ==> st'.store[k'] == st.store[k'])
      && |st'.delivered| == |st.delivered| + |s.transporters|
      && st'.delivered[..|st.delivered|] == st.delivered
      && (forall i :: 0 <= i < |s.transporters| ==>
            st'.delivered[|st.delivered| + i]
            == Delivery(s.transporters[i], Aggregation.Built(env, st'.store[k], s.registry[k])))
  {
  }

  /** The successful step, for the aircraft built from the new history. */
  lemma StepSucceeds(s: Settings, st: State, data: Frame, env: Aggregation.Env,
                     addressOf: QualifiedMessage -> nat, q: QualifiedMessage, aircraft: Aircraft)
    requires |data| >= 1 && ValidStore(st.store)
    requires Qualify(data) == Ok(q) && CrcGate(q).None? && AircraftAddress(q, addressOf) in s.registry
    requires aircraft == Aggregation.Built(env, Elements(st.store, AircraftAddress(q, addressOf)) + [q],
                                           s.registry[AircraftAddress(q, addressOf)])
    ensures Step(s, st, data, env, addressOf)
         == (State(st.store[AircraftAddress(q, addressOf) := Elements(st.store, AircraftAddress(q, addressOf)) + [q]],
                   st.delivered + Deliveries(s.transporters, aircraft)), None)
  {
  }

  /** The store stays made of non-empty classified histories. */
  lemma StepKeepsStore(s: Settings, st: State, data: Frame, env: Aggregation.Env,
                       addressOf: QualifiedMessage -> nat)
    requires |data| >= 1 && ValidStore(st.store)
    ensures ValidStore(Step(s, st, data, env, addressOf).0.store)
  {
    if Qualify(data).Ok? {
      var q := Qualify(data).value;
      if CrcGate(q).None? {
        var k := AircraftAddress(q, addressOf);
        if k in s.registry {
          AppendKeepsStore(st.store, k, q);
        }
      }
    }
  }

  /** Appending a classified message to one history keeps the store valid. */
  lemma AppendKeepsStore(store: map<nat, seq<QualifiedMessage>>, k: nat, q: QualifiedMessage)
    requires ValidStore(store)
    requires |q.frame| >= 1 && (q.ExtendedSquitter? ==> |q.frame| == 14)
    ensures ValidStore(store[k := Elements(store, k) + [q]])
  {
    var history := Elements(store, k) + [q];
    assert Aggregation.WellFormed(history) by {
      forall i | 0 <= i < |history|
        ensures |history[i].frame| >= 1 && (history[i].ExtendedSquitter? ==> |history[i].frame| == 14)
      {
        if i < |history| - 1 {
          assert history[i] == store[k][i];
        }
      }
    }
  }

  /** The data processor. */
  class Process {
    var store: map<nat, seq<QualifiedMessage>>
    var dbLifeTime: int
    var transporters: seq<Transporter>
    var registry: map<nat, Aggregation.Entry>
    var delivered: seq<Delivery>

    ghost predicate Valid()
      reads this
    {
      ValidStore(store)
    }

    function Current(): Settings
      reads this
    {
      Settings(registry, dbLifeTime, transporters)
    }

    /** `New`: an empty processor, then each option in order. */
    constructor (opts: seq<Configurator>)
      ensures Valid()
      ensures Current() == Configured(opts)
      ensures store == map[] && delivered == []
    {
      store := map[];
      delivered := [];
      registry := map[];
      dbLifeTime := 0;
      transporters := [];
      new;
      for idx := 0 to |opts|
        invariant Current() == Configured(opts[..idx])
        invariant store == map[] && delivered == []
      {
        assert opts[..idx + 1][..idx] == opts[..idx];
        match opts[idx]
        case WithAircraftWorldDatabase(db) => registry := db;
        case WithDatabaseLifetime(d) => dbLifeTime := d;
        case WithTransporter(t) => transporters := transporters + [t];
      }
      assert opts[..|opts|] == opts;
    }

    /** `Process`: one frame through the pipeline. */
    method Process(data: Frame, env: Aggregation.Env, addressOf: QualifiedMessage -> nat)
      returns (err: Option<ProcessError>)
      requires |data| >= 1 && Valid()
      modifies this
      ensures Valid()
      ensures (State(store, delivered), err)
              == Step(old(Current()), State(old(store), old(delivered)), data, env, addressOf)
      ensures Current() == old(Current())
    {
      var squitter := Qualify(data);
      if squitter.Err? {
        return Some(ErrFrame(squitter.error));
      }
      var checked := CrcGate(squitter.value);
      if checked.Some? {
        return Some(ErrFrame(checked.value));
      }
      var icaoAddress := AircraftAddress(squitter.value, addressOf);
      if icaoAddress !in registry {
        return Some(ErrReferenceAircraftNotFound);
      }
      var aircraftReference := registry[icaoAddress];
      var history := Elements(store, icaoAddress) + [squitter.value];
      AppendKeepsStore(store, icaoAddress, squitter.value);
      ghost var before := State(store, delivered);
      store := store[icaoAddress := history];
      var aircraft := Aggregation.BuildAircraft(env, history, aircraftReference);
      StepSucceeds(Current(), before, data, env, addressOf, squitter.value, aircraft);
      Deliver(aircraft);
      return None;
    }

    /** The transporter loop: each transporter in turn receives the aircraft; its error
        is only logged. */
    method Deliver(aircraft: Aircraft)
      modifies this
      ensures delivered == old(delivered) + Deliveries(transporters, aircraft)
      ensures store == old(store) && Current() == old(Current())
    {
      for idx := 0 to |transporters|
        invariant transporters == old(transporters)
        invariant delivered == old(delivered) + Deliveries(transporters[..idx], aircraft)
        invariant store == old(store) && Current() == old(Current())
      {
        assert transporters[..idx + 1][..idx] == transporters[..idx];
        delivered := delivered + [Delivery(transporters[idx], aircraft)];
      }
      assert transporters[..|transporters|] == transporters;
    }
  }
}
