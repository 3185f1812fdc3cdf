/**
 * The part of the vehicle's wire schema (the generated `carserver` types)
 * that the climate builders fill in. Where the schema spells an enumeration
 * as a one-of of empty marker messages, the marker is a constructor here;
 * a oneof field that may be left unset is an Option.
 */
module CarServer {
  import opened Wrappers
  import opened Ints

  /** The seat markers of a seat-heater action. */
  datatype HeaterSeat =
    | CarSeatUnknown
    | CarSeatFrontLeft
    | CarSeatFrontRight
    | CarSeatRearLeft
    | CarSeatRearLeftBack
    | CarSeatRearCenter
    | CarSeatRearRight
    | CarSeatRearRightBack
    | CarSeatThirdRowLeft
    | CarSeatThirdRowRight

  /** The level markers of a seat-heater action. */
  datatype HeaterLevel =
    | SeatHeaterUnknown
    | SeatHeaterOff
    | SeatHeaterLow
    | SeatHeaterMed
    | SeatHeaterHigh

  /** One seat-heater sub-record; both oneof fields start unset. */
  datatype SeatHeaterAction = SeatHeaterAction(seatPosition: Option<HeaterSeat>, seatHeaterLevel: Option<HeaterLevel>)

  /** The seat-cooler position enumeration, as far as the builders use it. */
  datatype CoolerPosition = CoolerFrontLeft | CoolerFrontRight

  /** A seat-cooler sub-record; the level is the schema's 32-bit enumeration number. */
  datatype SeatCoolerAction = SeatCoolerAction(seatCoolerLevel: int32, seatPosition: CoolerPosition)

  /** The seat enumeration of the automatic seat-climate action. */
  datatype AutoSeatPosition = AutoSeatUnknown | AutoSeatFrontLeft | AutoSeatFrontRight

  datatype CarSeat = CarSeat(on: bool, seatPosition: AutoSeatPosition)

  /** A `float32`, carried as its bit pattern and never interpreted. */
  datatype Float32 = Float32(bits: bv32)

  /** The temperature-level markers, as far as the builders use them. */
  datatype TemperatureType = TempMax

  /** The vehicle-action messages the climate builders produce. */
  datatype VehicleActionMsg =
    | HvacSeatCoolerActions(hvacSeatCoolerAction: seq<SeatCoolerAction>)
    | HvacAutoAction(powerOn: bool)
    | AutoSeatClimateAction(carseat: seq<CarSeat>)
    | HvacTemperatureAdjustmentAction(driverTempCelsius: Float32, passengerTempCelsius: Float32, level: Option<TemperatureType>)
    | HvacSeatHeaterActions(hvacSeatHeaterAction: seq<SeatHeaterAction>)
    | HvacSteeringWheelHeaterAction(powerOn: bool)
    | HvacSetPreconditioningMaxAction(on: bool, manualOverride: bool)
    | HvacBioweaponModeAction(on: bool, manualOverride: bool)
    | SetCabinOverheatProtectionAction(on: bool, fanOnly: bool)
    | SetCopTempAction(copActivationTemp: int32)
    | HvacClimateKeeperAction(climateKeeperAction: int32, manualOverride: bool)

  /** The action envelope handed to the dispatch boundary. */
  datatype Action = VehicleAction(vehicleActionMsg: VehicleActionMsg)

  /** The climate-keeper enumeration numbers of the schema. */
  const ClimateKeeperActionOff: int32 := 0
  const ClimateKeeperActionOn: int32 := 1
  const ClimateKeeperActionDog: int32 := 2
  const ClimateKeeperActionCamp: int32 := 3
}
