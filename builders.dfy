/**
 * The climate command builders: each turns typed domain inputs into one
 * vehicle-action payload. The two loops of the source (the automatic
 * seat-climate filter and the per-entry seat-heater builder) are methods
 * proved against specification functions; the fixed-shape payloads are
 * functions whose contracts say what a reader of the payload gets back.
 */
module ClimateBuilders {
  import opened Wrappers
  import opened Ints
  import opened CarServer
  import opened Vocabulary
  import opened HeaterAdapters

  /** Errors a builder returns: its own validation errors and whatever dispatch reports. */
  datatype Error = InvalidArgument(message: string) | DispatchFailure(cause: string)

  /** A Go `error` result: nil, or an error. */
  datatype Outcome = Ok | Err(error: Error)

  const InvalidSeatPosition: Error := InvalidArgument("invalid seat position")

  // ---------------------------------------------------------------------
  // Lookup tables
  // ---------------------------------------------------------------------

  /** The seats a seat cooler exists for. */
  const CoolerSeatMap: map<SeatPosition, CoolerPosition> :=
    map[SeatFrontLeft := CoolerFrontLeft, SeatFrontRight := CoolerFrontRight]

  /** The seats the automatic seat-climate action knows. */
  const AutoSeatLookup: map<SeatPosition, AutoSeatPosition> :=
    map[SeatUnknown := AutoSeatUnknown, SeatFrontLeft := AutoSeatFrontLeft, SeatFrontRight := AutoSeatFrontRight]

  function SeatOfCoolerPosition(p: CoolerPosition): SeatPosition
  {
    match p
    case CoolerFrontLeft => SeatFrontLeft
    case CoolerFrontRight => SeatFrontRight
  }

  /** The cooler table holds exactly the two front seats, each under its own cooler position. */
  lemma CoolerSeatMapIsFrontSeats(seat: SeatPosition)
    ensures seat in CoolerSeatMap <==> seat == SeatFrontLeft || seat == SeatFrontRight
    ensures seat in CoolerSeatMap ==> SeatOfCoolerPosition(CoolerSeatMap[seat]) == seat
  {
  }

  function SeatOfAutoSeatPosition(p: AutoSeatPosition): SeatPosition
  {
    match p
    case AutoSeatUnknown => SeatUnknown
    case AutoSeatFrontLeft => SeatFrontLeft
    case AutoSeatFrontRight => SeatFrontRight
  }

  /** The automatic seat-climate table holds exactly Unknown and the two front seats, each under its own position. */
  lemma AutoSeatLookupIsKnownSeats(seat: SeatPosition)
    ensures seat in AutoSeatLookup <==> seat == SeatUnknown || seat == SeatFrontLeft || seat == SeatFrontRight
    ensures seat in AutoSeatLookup ==> SeatOfAutoSeatPosition(AutoSeatLookup[seat]) == seat
  {
  }

  // ---------------------------------------------------------------------
  // Reading single-record payloads back
  // ---------------------------------------------------------------------

  /** A call of one of the single-record builders, with its arguments. */
  datatype Request =
    | SeatCoolerRequest(level: Level, seat: SeatPosition)
    | ClimateOnRequest
    | ClimateOffRequest
    | ChangeClimateTempRequest(driverCelsius: Float32, passengerCelsius: Float32)
    | SteeringWheelHeaterRequest(enabled: bool)
    | PreconditioningMaxRequest(enabled: bool, manualOverride: bool)
    | BioweaponDefenseModeRequest(enabled: bool, manualOverride: bool)
    | CabinOverheatProtectionRequest(enabled: bool, fanOnly: bool)
    | CabinOverheatProtectionTemperatureRequest(level: Level)
    | ClimateKeeperModeRequest(mode: ClimateKeeperMode, manualOverride: bool)

  /**
   * What the vehicle reads out of a single-record payload: the seat-cooler
   * level is read one below its wire number (the wire reserves 0 for
   * "unknown"), the overheat-protection temperature as it stands, and a
   * temperature adjustment only together with its max-mode marker. The list
   * payloads (automatic seat climate, seat heaters) are not single requests.
   */
  function Decode(a: Action): Option<Request>
  {
    match a.vehicleActionMsg
    case HvacSeatCoolerActions(cs) =>
      if |cs| == 1
      then Some(SeatCoolerRequest((cs[0].seatCoolerLevel as int - 1) as Level, SeatOfCoolerPosition(cs[0].seatPosition)))
      else None
    case HvacAutoAction(powerOn) => Some(if powerOn then ClimateOnRequest else ClimateOffRequest)
    case AutoSeatClimateAction(_) => None
    case HvacTemperatureAdjustmentAction(driver, passenger, level) =>
      if level == Some(TempMax) then Some(ChangeClimateTempRequest(driver, passenger)) else None
    case HvacSeatHeaterActions(_) => None
    case HvacSteeringWheelHeaterAction(powerOn) => Some(SteeringWheelHeaterRequest(powerOn))
    case HvacSetPreconditioningMaxAction(on, manualOverride) => Some(PreconditioningMaxRequest(on, manualOverride))
    case HvacBioweaponModeAction(on, manualOverride) => Some(BioweaponDefenseModeRequest(on, manualOverride))
    case SetCabinOverheatProtectionAction(on, fanOnly) => Some(CabinOverheatProtectionRequest(on, fanOnly))
    case SetCopTempAction(t) => Some(CabinOverheatProtectionTemperatureRequest(t as int as Level))
    case HvacClimateKeeperAction(mode, manualOverride) => Some(ClimateKeeperModeRequest(mode, manualOverride))
  }

  // ---------------------------------------------------------------------
  // Seat cooler: strict validation, +1 offset
  // ---------------------------------------------------------------------

  /**
   * The seat-cooler payload. Only the two front seats are accepted, any
   * other seat is an invalid-argument error; a valid call carries exactly
   * one cooler record whose level is read back as `level` (the +1 offset is
   * applied once), for every level whose successor fits the wire's 32 bits.
   */
  function SeatCoolerPayload(level: Level, seat: SeatPosition): (r: Result<Action, Error>)
    ensures r.Failure? <==> seat != SeatFrontLeft && seat != SeatFrontRight
    ensures r.Failure? ==> r.error == InvalidSeatPosition
    ensures r.Success? ==> r.value.vehicleActionMsg.HvacSeatCoolerActions? && |r.value.vehicleActionMsg.hvacSeatCoolerAction| == 1
    ensures r.Success? ==> r.value.vehicleActionMsg.hvacSeatCoolerAction[0].seatPosition == CoolerSeatMap[seat]
    ensures r.Success? && InInt32(level as int + 1) ==> Decode(r.value) == Some(SeatCoolerRequest(level, seat))
  {
    if seat !in CoolerSeatMap then Failure(InvalidSeatPosition)
    else
      var protoSeat := CoolerSeatMap[seat];
      Success(VehicleAction(HvacSeatCoolerActions([SeatCoolerAction(Int32Of(WrapInt64(level as int + 1)), protoSeat)])))
  }

  /** The four named levels reach the cooler as 1 to 4, never as the reserved 0. */
  lemma SeatCoolerNamedLevels(level: Level, seat: SeatPosition)
    requires HasLevelMarker(level) && seat in CoolerSeatMap
    ensures SeatCoolerPayload(level, seat).value.vehicleActionMsg.hvacSeatCoolerAction[0].seatCoolerLevel as int == level as int + 1
    ensures SeatCoolerPayload(level, seat).value.vehicleActionMsg.hvacSeatCoolerAction[0].seatPosition == CoolerSeatMap[seat]
  {
  }

  /**
   * The largest Level wraps: level + 1 overflows Go's int to its minimum,
   * whose low 32 bits are zero, so the cooler receives the wire's
   * "unknown" level.
   */
  lemma SeatCoolerLevelWrapsAtMaximum()
    ensures SeatCoolerPayload(0x7FFF_FFFF_FFFF_FFFF, SeatFrontLeft).value.vehicleActionMsg.hvacSeatCoolerAction[0].seatCoolerLevel == 0
  {
    assert WrapInt64(0x8000_0000_0000_0000) == -0x8000_0000_0000_0000;
    assert Int32Of(-0x8000_0000_0000_0000) == 0;
  }

  // ---------------------------------------------------------------------
  // Fixed-shape payloads
  // ---------------------------------------------------------------------

  function ClimateOnPayload(): (a: Action)
    ensures Decode(a) == Some(ClimateOnRequest)
  {
    VehicleAction(HvacAutoAction(true))
  }

  function ClimateOffPayload(): (a: Action)
    ensures Decode(a) == Some(ClimateOffRequest)
  {
    VehicleAction(HvacAutoAction(false))
  }

  /** Both temperatures pass through untouched, always next to the max-mode marker. */
  function ChangeClimateTempPayload(driverCelsius: Float32, passengerCelsius: Float32): (a: Action)
    ensures Decode(a) == Some(ChangeClimateTempRequest(driverCelsius, passengerCelsius))
  {
    VehicleAction(HvacTemperatureAdjustmentAction(driverCelsius, passengerCelsius, Some(TempMax)))
  }

  function SteeringWheelHeaterPayload(enabled: bool): (a: Action)
    ensures Decode(a) == Some(SteeringWheelHeaterRequest(enabled))
  {
    VehicleAction(HvacSteeringWheelHeaterAction(enabled))
  }

  function PreconditioningMaxPayload(enabled: bool, manualOverride: bool): (a: Action)
    ensures Decode(a) == Some(PreconditioningMaxRequest(enabled, manualOverride))
  {
    VehicleAction(HvacSetPreconditioningMaxAction(enabled, manualOverride))
  }

  function BioweaponDefenseModePayload(enabled: bool, manualOverride: bool): (a: Action)
    ensures Decode(a) == Some(BioweaponDefenseModeRequest(enabled, manualOverride))
  {
    VehicleAction(HvacBioweaponModeAction(enabled, manualOverride))
  }

  function CabinOverheatProtectionPayload(enabled: bool, fanOnly: bool): (a: Action)
    ensures Decode(a) == Some(CabinOverheatProtectionRequest(enabled, fanOnly))
  {
    VehicleAction(SetCabinOverheatProtectionAction(enabled, fanOnly))
  }

  /** The level is converted to the wire enumeration with no offset. */
  function CabinOverheatProtectionTemperaturePayload(level: Level): (a: Action)
    ensures InInt32(level as int) ==> Decode(a) == Some(CabinOverheatProtectionTemperatureRequest(level))
  {
    VehicleAction(SetCopTempAction(Int32Of(level as int)))
  }

  /** The mode is the wire enumeration already and passes through unchanged. */
  function ClimateKeeperModePayload(mode: ClimateKeeperMode, manualOverride: bool): (a: Action)
    ensures Decode(a) == Some(ClimateKeeperModeRequest(mode, manualOverride))
  {
    VehicleAction(HvacClimateKeeperAction(mode, manualOverride))
  }

  /**
   * The same level reaches the seat cooler one higher than it reaches the
   * overheat-protection temperature: only the cooler applies the offset.
   * At every level this holds modulo 2^32, the wire's width; where the level
   * and its successor both fit in 32 bits it holds exactly.
   */
  lemma CoolerOffsetAgainstCopTemperature(level: Level, seat: SeatPosition)
    requires seat in CoolerSeatMap
    ensures (SeatCoolerPayload(level, seat).value.vehicleActionMsg.hvacSeatCoolerAction[0].seatCoolerLevel as int
             - (CabinOverheatProtectionTemperaturePayload(level).vehicleActionMsg.copActivationTemp as int + 1)) % TWO_TO_THE_32 == 0
    ensures InInt32(level as int) && InInt32(level as int + 1) ==>
      SeatCoolerPayload(level, seat).value.vehicleActionMsg.hvacSeatCoolerAction[0].seatCoolerLevel as int
      == CabinOverheatProtectionTemperaturePayload(level).vehicleActionMsg.copActivationTemp as int + 1
  {
    var wrapped := WrapInt64(level as int + 1);
    var cooler := Int32Of(wrapped) as int;
    var cop := Int32Of(level as int) as int;
    var k := (wrapped - (level as int + 1)) / TWO_TO_THE_64;
    var j := (cooler - wrapped) / TWO_TO_THE_32;
    var m := (cop - level as int) / TWO_TO_THE_32;
    assert wrapped - (level as int + 1) == k * TWO_TO_THE_64;
    assert cooler - wrapped == j * TWO_TO_THE_32;
    assert cop - level as int == m * TWO_TO_THE_32;
    assert TWO_TO_THE_64 == TWO_TO_THE_32 * TWO_TO_THE_32;
    assert cooler - (cop + 1) == (j + k * TWO_TO_THE_32 - m) * TWO_TO_THE_32;
  }

  // ---------------------------------------------------------------------
  // Automatic seat climate: lenient filter
  // ---------------------------------------------------------------------

  /**
   * The seat list of the automatic seat-climate payload: one entry per known
   * position, in input order, each switched as `enabled`; unknown positions
   * contribute nothing.
   */
  function AutoSeats(positions: seq<SeatPosition>, enabled: bool): (seats: seq<CarSeat>)
    ensures |seats| <= |positions|
    ensures forall i :: 0 <= i < |seats| ==> seats[i].on == enabled
  {
    if positions == [] then []
    else
      var last := positions[|positions| - 1];
      var init := AutoSeats(positions[..|positions| - 1], enabled);
      if last in AutoSeatLookup then init + [CarSeat(enabled, AutoSeatLookup[last])] else init
  }

  /** The input positions the lookup knows, in order: the reference filter. */
  function KnownAutoSeats(positions: seq<SeatPosition>): (known: seq<SeatPosition>)
    ensures forall i :: 0 <= i < |known| ==> known[i] in AutoSeatLookup
  {
    if positions == [] then []
    else (if positions[0] in AutoSeatLookup then [positions[0]] else []) + KnownAutoSeats(positions[1..])
  }

  /** The seat list of a concatenation is the concatenation of the seat lists. */
  lemma {:induction false} AutoSeatsAppend(a: seq<SeatPosition>, b: seq<SeatPosition>, enabled: bool)
    ensures AutoSeats(a + b, enabled) == AutoSeats(a, enabled) + AutoSeats(b, enabled)
    decreases |b|
  {
    if b == [] {
      assert a + b == a;
    } else {
      var b' := b[..|b| - 1];
      assert (a + b)[..|a + b| - 1] == a + b';
      assert (a + b)[|a + b| - 1] == b[|b| - 1];
      AutoSeatsAppend(a, b', enabled);
    }
  }

  /**
   * The seat list is the reference filter with each kept position mapped
   * through the lookup and switched as `enabled`.
   */
  lemma {:induction false} AutoSeatsIsFilter(positions: seq<SeatPosition>, enabled: bool)
    ensures |AutoSeats(positions, enabled)| == |KnownAutoSeats(positions)|
    ensures forall i :: 0 <= i < |KnownAutoSeats(positions)| ==>
      AutoSeats(positions, enabled)[i] == CarSeat(enabled, AutoSeatLookup[KnownAutoSeats(positions)[i]])
    decreases |positions|
  {
    if positions != [] {
      var head, tail := [positions[0]], positions[1..];
      assert positions == head + tail;
      AutoSeatsAppend(head, tail, enabled);
      assert head[..0] == [];
      AutoSeatsIsFilter(tail, enabled);
    }
  }

  /** No two known seats share an automatic seat-climate position. */
  lemma AutoSeatLookupInjective(a: SeatPosition, b: SeatPosition)
    requires a in AutoSeatLookup && b in AutoSeatLookup
    ensures AutoSeatLookup[a] == AutoSeatLookup[b] <==> a == b
  {
    assert SeatOfAutoSeatPosition(AutoSeatLookup[a]) == a;
    assert SeatOfAutoSeatPosition(AutoSeatLookup[b]) == b;
  }

  /** Duplicates survive: a known seat appears as often in the output as in the input. */
  lemma {:induction false} AutoSeatsCount(positions: seq<SeatPosition>, enabled: bool, s: SeatPosition)
    requires s in AutoSeatLookup
    ensures multiset(AutoSeats(positions, enabled))[CarSeat(enabled, AutoSeatLookup[s])] == multiset(positions)[s]
    decreases |positions|
  {
    if positions != [] {
      var init, last := positions[..|positions| - 1], positions[|positions| - 1];
      AutoSeatsCount(init, enabled, s);
      assert multiset(positions) == multiset(init) + multiset{last} by {
        assert positions == init + [last];
      }
      if last in AutoSeatLookup {
        var entry := CarSeat(enabled, AutoSeatLookup[last]);
        assert multiset(AutoSeats(positions, enabled)) == multiset(AutoSeats(init, enabled)) + multiset{entry} by {
          assert AutoSeats(positions, enabled) == AutoSeats(init, enabled) + [entry];
        }
        AutoSeatLookupInjective(last, s);
      }
    }
  }

  /** Nothing is dropped exactly when every input position is known. */
  lemma {:induction false} AutoSeatsKeepsAll(positions: seq<SeatPosition>, enabled: bool)
    ensures |AutoSeats(positions, enabled)| == |positions| <==> forall i :: 0 <= i < |positions| ==> positions[i] in AutoSeatLookup
    decreases |positions|
  {
    if positions != [] {
      var init := positions[..|positions| - 1];
      AutoSeatsKeepsAll(init, enabled);
      assert forall i :: 0 <= i < |init| ==> init[i] == positions[i];
    }
  }

  /** The loop of AutoSeatAndClimate: append a seat entry for each known position. */
  method CollectAutoSeats(positions: seq<SeatPosition>, enabled: bool) returns (seats: seq<CarSeat>)
    ensures seats == AutoSeats(positions, enabled)
  {
    seats := [];
    for i := 0 to |positions|
      invariant seats == AutoSeats(positions[..i], enabled)
    {
      assert positions[..i + 1][..i] == positions[..i];
      var pos := positions[i];
      if pos in AutoSeatLookup {
        seats := seats + [CarSeat(enabled, AutoSeatLookup[pos])];
      }
    }
    assert positions[..|positions|] == positions;
  }

  /** A known front seat is kept and a second-row seat dropped, without error. */
  lemma AutoSeatsDropsSecondRow()
    ensures AutoSeats([SeatFrontLeft, SeatSecondRowLeft], true) == [CarSeat(true, AutoSeatFrontLeft)]
  {
    assert [SeatFrontLeft, SeatSecondRowLeft][..1] == [SeatFrontLeft];
    assert [SeatFrontLeft][..0] == [];
  }

  // ---------------------------------------------------------------------
  // Seat heaters: one sub-record per map entry
  // ---------------------------------------------------------------------

  /** Every element of `order` is a key of `levels`. */
  predicate KeysIn(order: seq<SeatPosition>, levels: map<SeatPosition, Level>)
  {
    forall i :: 0 <= i < |order| ==> order[i] in levels
  }

  predicate NoRepeats(order: seq<SeatPosition>)
  {
    forall i, j :: 0 <= i < j < |order| ==> order[i] != order[j]
  }

  /** `order` lists every key of `levels` exactly once: one possible iteration order of the map. */
  ghost predicate Enumerates(order: seq<SeatPosition>, levels: map<SeatPosition, Level>)
  {
    && NoRepeats(order)
    && KeysIn(order, levels)
    && (forall k :: k in levels ==> k in order)
  }

  /**
   * The heater sub-records for the keys of `levels` taken in `order`: one
   * per key, each with the markers the two adapters choose for that entry.
   */
  function HeaterActionsFor(order: seq<SeatPosition>, levels: map<SeatPosition, Level>): (actions: seq<SeatHeaterAction>)
    requires KeysIn(order, levels)
    ensures |actions| == |order|
  {
    if order == [] then []
    else
      var last := order[|order| - 1];
      HeaterActionsFor(order[..|order| - 1], levels) + [HeaterActionFor(last, levels[last])]
  }

  /** Sub-record `i` carries the markers the two adapters choose for the `i`-th key and its level. */
  lemma {:induction false} HeaterActionsForAt(order: seq<SeatPosition>, levels: map<SeatPosition, Level>, i: nat)
    requires KeysIn(order, levels) && i < |order|
    ensures HeaterActionsFor(order, levels)[i] == HeaterActionFor(order[i], levels[order[i]])
  {
    if i < |order| - 1 {
      HeaterActionsForAt(order[..|order| - 1], levels, i);
    }
  }

  /** The keys of `levels` whose entry yields the sub-record `e`. */
  ghost function EntriesGiving(levels: map<SeatPosition, Level>, e: SeatHeaterAction): set<SeatPosition>
  {
    set k | k in levels && HeaterActionFor(k, levels[k]) == e
  }

  /** The keys listed in `order` whose entry yields the sub-record `e`. */
  ghost function ListedGiving(order: seq<SeatPosition>, levels: map<SeatPosition, Level>, e: SeatHeaterAction): set<SeatPosition>
  {
    set k | k in order && k in levels && HeaterActionFor(k, levels[k]) == e
  }

  /** Listing one more key adds it to the keys giving `e` exactly when its entry gives `e`. */
  lemma ListedGivingSnoc(init: seq<SeatPosition>, x: SeatPosition, levels: map<SeatPosition, Level>, e: SeatHeaterAction)
    requires x in levels && x !in init
    ensures |ListedGiving(init + [x], levels, e)|
         == |ListedGiving(init, levels, e)| + (if HeaterActionFor(x, levels[x]) == e then 1 else 0)
  {
    var extra := if HeaterActionFor(x, levels[x]) == e then {x} else {};
    forall k ensures k in ListedGiving(init + [x], levels, e) <==> k in ListedGiving(init, levels, e) + extra {
      assert k in init + [x] <==> k in init || k == x;
    }
    assert ListedGiving(init + [x], levels, e) == ListedGiving(init, levels, e) + extra;
  }

  /**
   * Over keys without repetition, each sub-record value occurs as often in
   * the payload as there are listed keys whose entry yields it.
   */
  lemma {:induction false} HeaterActionsCount(order: seq<SeatPosition>, levels: map<SeatPosition, Level>, e: SeatHeaterAction)
    requires KeysIn(order, levels) && NoRepeats(order)
    ensures multiset(HeaterActionsFor(order, levels))[e] == |ListedGiving(order, levels, e)|
  {
    if order == [] {
      assert ListedGiving(order, levels, e) == {};
    } else {
      var init, x := order[..|order| - 1], order[|order| - 1];
      assert KeysIn(init, levels) && NoRepeats(init) && x in levels && x !in init && order == init + [x] by {
        assert forall i :: 0 <= i < |init| ==> init[i] == order[i];
      }
      HeaterActionsCount(init, levels, e);
      var hit := if HeaterActionFor(x, levels[x]) == e then 1 else 0;
      assert multiset(HeaterActionsFor(order, levels))[e] == multiset(HeaterActionsFor(init, levels))[e] + hit by {
        assert HeaterActionsFor(order, levels) == HeaterActionsFor(init, levels) + [HeaterActionFor(x, levels[x])];
      }
      ListedGivingSnoc(init, x, levels, e);
    }
  }

  /**
   * The heater payload holds each sub-record value exactly as often as the
   * map has entries yielding it, whatever order the map is visited in.
   */
  lemma SeatHeaterCounts(order: seq<SeatPosition>, levels: map<SeatPosition, Level>, e: SeatHeaterAction)
    requires Enumerates(order, levels)
    ensures multiset(HeaterActionsFor(order, levels))[e] == |EntriesGiving(levels, e)|
  {
    HeaterActionsCount(order, levels, e);
    assert ListedGiving(order, levels, e) == EntriesGiving(levels, e);
  }

  /** Any two iteration orders of the map give the same multiset of sub-records. */
  lemma SeatHeaterOrderIrrelevant(o1: seq<SeatPosition>, o2: seq<SeatPosition>, levels: map<SeatPosition, Level>)
    requires Enumerates(o1, levels) && Enumerates(o2, levels)
    ensures multiset(HeaterActionsFor(o1, levels)) == multiset(HeaterActionsFor(o2, levels))
  {
    forall e ensures multiset(HeaterActionsFor(o1, levels))[e] == multiset(HeaterActionsFor(o2, levels))[e] {
      SeatHeaterCounts(o1, levels, e);
      SeatHeaterCounts(o2, levels, e);
    }
  }

  /**
   * The loop of SetSeatHeater: visit the map's keys in some order, fill a
   * fresh record through both adapters and append it. `order` is the order
   * the keys were visited in.
   */
  method BuildHeaterActions(levels: map<SeatPosition, Level>)
    returns (actions: seq<SeatHeaterAction>, ghost order: seq<SeatPosition>)
    ensures Enumerates(order, levels)
    ensures |actions| == |levels|
    ensures actions == HeaterActionsFor(order, levels)
  {
    actions, order := [], [];
    var remaining := levels.Keys;
    while remaining != {}
      invariant remaining <= levels.Keys
      invariant forall i :: 0 <= i < |order| ==> order[i] in levels && order[i] !in remaining
      invariant forall i, j :: 0 <= i < j < |order| ==> order[i] != order[j]
      invariant forall k :: k in levels ==> k in remaining || k in order
      invariant |order| + |remaining| == |levels|
      invariant actions == HeaterActionsFor(order, levels)
      decreases remaining
    {
      var position :| position in remaining;
      var level := levels[position];
      var action := new SeatHeaterActionRecord();
      AddLevelToHeaterAction(level, action);
      AddSeatToHeaterAction(position, action);
      actions := actions + [action.Value()];
      order := order + [position];
      remaining := remaining - {position};
    }
  }

  /** The two-entry map used in the example below. */
  const FrontLeftHighRearCenterOff: map<SeatPosition, Level> := map[SeatFrontLeft := LevelHigh, SeatSecondRowCenter := LevelOff]

  /** Front-left then second-row centre is one iteration order of the example map. */
  lemma ExampleOrderEnumerates()
    ensures Enumerates([SeatFrontLeft, SeatSecondRowCenter], FrontLeftHighRearCenterOff)
  {
    assert FrontLeftHighRearCenterOff.Keys == {SeatFrontLeft, SeatSecondRowCenter};
  }

  lemma ExampleOrderActions()
    ensures HeaterActionsFor([SeatFrontLeft, SeatSecondRowCenter], FrontLeftHighRearCenterOff)
         == [SeatHeaterAction(Some(CarSeatFrontLeft), Some(SeatHeaterHigh)),
             SeatHeaterAction(Some(CarSeatRearCenter), Some(SeatHeaterOff))]
  {
    var levels := FrontLeftHighRearCenterOff;
    assert [SeatFrontLeft, SeatSecondRowCenter][..1] == [SeatFrontLeft];
    assert HeaterActionsFor([SeatFrontLeft], levels) == [HeaterActionFor(SeatFrontLeft, LevelHigh)];
    assert HeaterActionFor(SeatFrontLeft, LevelHigh) == SeatHeaterAction(Some(CarSeatFrontLeft), Some(SeatHeaterHigh));
    assert HeaterActionFor(SeatSecondRowCenter, LevelOff) == SeatHeaterAction(Some(CarSeatRearCenter), Some(SeatHeaterOff));
  }

  /**
   * Front-left on high and second-row centre off give exactly these two
   * sub-records, whatever order the map is visited in.
   */
  lemma SeatHeaterTwoEntries(order: seq<SeatPosition>)
    requires Enumerates(order, FrontLeftHighRearCenterOff)
    ensures multiset(HeaterActionsFor(order, FrontLeftHighRearCenterOff))
         == multiset{SeatHeaterAction(Some(CarSeatFrontLeft), Some(SeatHeaterHigh)),
                     SeatHeaterAction(Some(CarSeatRearCenter), Some(SeatHeaterOff))}
  {
    ExampleOrderEnumerates();
    ExampleOrderActions();
    SeatHeaterOrderIrrelevant(order, [SeatFrontLeft, SeatSecondRowCenter], FrontLeftHighRearCenterOff);
  }
}
