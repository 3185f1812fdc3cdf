/**
 * The vehicle handle the builders are methods of. Its dispatch boundary
 * records every payload it is handed, together with the reply it gave, so
 * that each builder's contract can say exactly what was submitted and that
 * the reply reached the caller unchanged.
 */
module Vehicles {
  import opened CarServer
  import opened Vocabulary
  import opened ClimateBuilders

  /** One call of the dispatch boundary: the payload and the reply it gave. */
  datatype Exchange = Exchange(action: Action, reply: Outcome)

  /** The replies dispatch can give: success, or a failure it reports. */
  predicate IsDispatchReply(o: Outcome)
  {
    o.Ok? || o.error.DispatchFailure?
  }

  class Vehicle {
    /** Every payload handed to dispatch so far, oldest first, with its reply. */
    var exchanges: seq<Exchange>

    constructor ()
      ensures exchanges == []
    {
      exchanges := [];
    }

    /**
     * The dispatch boundary: it takes the payload and answers success or a
     * failure; which one is outside this model.
     */
    method ExecuteCarServerAction(action: Action) returns (err: Outcome)
      modifies this
      ensures IsDispatchReply(err)
      ensures exchanges == old(exchanges) + [Exchange(action, err)]
    {
      assert IsDispatchReply(Ok);
      err :| IsDispatchReply(err);
      exchanges := exchanges + [Exchange(action, err)];
    }

    /**
     * A rear seat is refused before anything is built or dispatched; a
     * front seat gets its one cooler payload submitted once.
     */
    method SetSeatCooler(level: Level, seat: SeatPosition) returns (err: Outcome)
      modifies this
      ensures seat != SeatFrontLeft && seat != SeatFrontRight ==>
        err == Err(InvalidSeatPosition) && exchanges == old(exchanges)
      ensures seat == SeatFrontLeft || seat == SeatFrontRight ==>
        IsDispatchReply(err) && exchanges == old(exchanges) + [Exchange(SeatCoolerPayload(level, seat).value, err)]
    {
      var payload := SeatCoolerPayload(level, seat);
      if payload.Failure? {
        return Err(payload.error);
      }
      err := ExecuteCarServerAction(payload.value);
    }

    method ClimateOn() returns (err: Outcome)
      modifies this
      ensures IsDispatchReply(err)
      ensures exchanges == old(exchanges) + [Exchange(ClimateOnPayload(), err)]
    {
      err := ExecuteCarServerAction(ClimateOnPayload());
    }

    method ClimateOff() returns (err: Outcome)
      modifies this
      ensures IsDispatchReply(err)
      ensures exchanges == old(exchanges) + [Exchange(ClimateOffPayload(), err)]
    {
      err := ExecuteCarServerAction(ClimateOffPayload());
    }

    /** Unknown seats are dropped from the list, never reported; the payload is always sent. */
    method AutoSeatAndClimate(positions: seq<SeatPosition>, enabled: bool) returns (err: Outcome)
      modifies this
      ensures IsDispatchReply(err)
      ensures exchanges == old(exchanges) + [Exchange(VehicleAction(AutoSeatClimateAction(AutoSeats(positions, enabled))), err)]
    {
      var seats := CollectAutoSeats(positions, enabled);
      err := ExecuteCarServerAction(VehicleAction(AutoSeatClimateAction(seats)));
    }

    method ChangeClimateTemp(driverCelsius: Float32, passengerCelsius: Float32) returns (err: Outcome)
      modifies this
      ensures IsDispatchReply(err)
      ensures exchanges == old(exchanges) + [Exchange(ChangeClimateTempPayload(driverCelsius, passengerCelsius), err)]
    {
      err := ExecuteCarServerAction(ChangeClimateTempPayload(driverCelsius, passengerCelsius));
    }

    /**
     * One heater sub-record per map entry, in the order the map was visited
     * (`order`, which the caller does not choose).
     */
    method SetSeatHeater(levels: map<SeatPosition, Level>) returns (err: Outcome, ghost order: seq<SeatPosition>)
      modifies this
      ensures Enumerates(order, levels)
      ensures IsDispatchReply(err)
      ensures exchanges == old(exchanges) + [Exchange(VehicleAction(HvacSeatHeaterActions(HeaterActionsFor(order, levels))), err)]
    {
      var actions;
      actions, order := BuildHeaterActions(levels);
      err := ExecuteCarServerAction(VehicleAction(HvacSeatHeaterActions(actions)));
    }

    method SetSteeringWheelHeater(enabled: bool) returns (err: Outcome)
      modifies this
      ensures IsDispatchReply(err)
      ensures exchanges == old(exchanges) + [Exchange(SteeringWheelHeaterPayload(enabled), err)]
    {
      err := ExecuteCarServerAction(SteeringWheelHeaterPayload(enabled));
    }

    method SetPreconditioningMax(enabled: bool, manualOverride: bool) returns (err: Outcome)
      modifies this
      ensures IsDispatchReply(err)
      ensures exchanges == old(exchanges) + [Exchange(PreconditioningMaxPayload(enabled, manualOverride), err)]
    {
      err := ExecuteCarServerAction(PreconditioningMaxPayload(enabled, manualOverride));
    }

    method SetBioweaponDefenseMode(enabled: bool, manualOverride: bool) returns (err: Outcome)
      modifies this
      ensures IsDispatchReply(err)
      ensures exchanges == old(exchanges) + [Exchange(BioweaponDefenseModePayload(enabled, manualOverride), err)]
    {
      err := ExecuteCarServerAction(BioweaponDefenseModePayload(enabled, manualOverride));
    }

    method SetCabinOverheatProtection(enabled: bool, fanOnly: bool) returns (err: Outcome)
      modifies this
      ensures IsDispatchReply(err)
      ensures exchanges == old(exchanges) + [Exchange(CabinOverheatProtectionPayload(enabled, fanOnly), err)]
    {
      err := ExecuteCarServerAction(CabinOverheatProtectionPayload(enabled, fanOnly));
    }

    method SetCabinOverheatProtectionTemperature(level: Level) returns (err: Outcome)
      modifies this
      ensures IsDispatchReply(err)
      ensures exchanges == old(exchanges) + [Exchange(CabinOverheatProtectionTemperaturePayload(level), err)]
    {
      err := ExecuteCarServerAction(CabinOverheatProtectionTemperaturePayload(level));
    }

    method SetClimateKeeperMode(mode: ClimateKeeperMode, manualOverride: bool) returns (err: Outcome)
      modifies this
      ensures IsDispatchReply(err)
      ensures exchanges == old(exchanges) + [Exchange(ClimateKeeperModePayload(mode, manualOverride), err)]
    {
      err := ExecuteCarServerAction(ClimateKeeperModePayload(mode, manualOverride));
    }
  }

  /**
   * Calling a builder twice with the same input submits two equal payloads
   * as two separate dispatch calls; nothing is merged or skipped.
   */
  method ClimateOnTwice(v: Vehicle) returns (first: Outcome, second: Outcome)
    modifies v
    ensures v.exchanges == old(v.exchanges) + [Exchange(ClimateOnPayload(), first), Exchange(ClimateOnPayload(), second)]
  {
    first := v.ClimateOn();
    second := v.ClimateOn();
  }

  /** A rear seat never reaches dispatch: the record of submissions stays as it was. */
  method RearSeatCoolerNeverDispatched(v: Vehicle, level: Level) returns (err: Outcome)
    modifies v
    ensures err == Err(InvalidArgument("invalid seat position"))
    ensures v.exchanges == old(v.exchanges)
  {
    err := v.SetSeatCooler(level, SeatSecondRowLeft);
  }
}
