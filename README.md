# Climate command mapping layer

A Dafny model of the climate part of the vehicle command library
(`pkg/vehicle/climate.go`). Each climate operation of a `Vehicle` turns
domain values (seat positions, levels, booleans, climate-keeper modes)
into one wire-format vehicle action and hands it to the dispatch call
`executeCarServerAction`, returning that call's error unchanged.

The model is split into modules:

- `Wrappers` (`wrappers.dfy`): Option and Result.
- `Ints` (`ints.dfy`): Go's `int` on 64-bit platforms and the schema's 32-bit enumerations, with wrap-around written out.
- `CarServer` (`carserver.dfy`): the wire messages the builders fill in. Marker messages become constructors, and unset oneof fields become `None`.
- `Vocabulary` (`vocabulary.dfy`): `SeatPosition`, `Level` and `ClimateKeeperMode`.
- `HeaterAdapters` (`adapters.dfy`): the two `addToHeaterAction` adapters.
  - The marker choice is a total function.
  - The heater-action record is a class that the adapter methods change in place.
- `ClimateBuilders` (`builders.dfy`): one payload function per builder.
  - The two loops of the source (automatic seat climate, seat heaters) are methods proved against specification functions.
  - Lemmas state filtering, order, multiplicity and iteration-order independence.
- `Vehicles` (`vehicle.dfy`): the `Vehicle` class.
  - Its dispatch boundary records every payload and the reply it gave.
  - Each builder method states exactly which payloads were submitted. There is one, or none when `SetSeatCooler` rejects the seat.

`Decode` (in `ClimateBuilders`) reads a single-record payload back into the
builder call it came from. The round trip `Decode(payload) == Some(request)`
is the contract of each fixed-shape builder. For the seat cooler, the read-back
subtracts the 1 that the builder adds, so the round trip shows the offset is
applied exactly once.

## Model

| member | source | states |
|---|---|---|
| `Ints.Int32Of` | pkg/vehicle/climate.go:28 | conversion to a 32-bit enumeration keeps the value modulo 2^32, and keeps it exactly when it fits |
| `Ints.WrapInt64` | pkg/vehicle/climate.go:28 | `level + 1` on Go's `int` is the true sum modulo 2^64; it equals the true sum when no overflow occurs |
| `HeaterAdapters.HeaterSeatOf` | pkg/vehicle/climate.go:110-133 | each of the nine named seats picks the marker that stands for it (no two share one); every other value, SeatUnknown included, picks CAR_SEAT_UNKNOWN |
| `HeaterAdapters.HeaterSeatOfReachesEveryMarker` | pkg/vehicle/climate.go:110-133 | every seat marker, Unknown included, is chosen by some seat position |
| `HeaterAdapters.HeaterLevelOf` | pkg/vehicle/climate.go:135-157 | Off=0, Low=1, Med=2, High=3 pick the OFF/LOW/MED/HIGH markers; every other integer picks SEAT_HEATER_UNKNOWN |
| `HeaterAdapters.HeaterLevelOfReachesEveryMarker` | pkg/vehicle/climate.go:144-157 | every level marker, Unknown included, is chosen by some level |
| `HeaterAdapters.SeatHeaterActionRecord.constructor` | pkg/vehicle/climate.go:163 | a freshly allocated heater-action record has both marker fields unset |
| `HeaterAdapters.AddSeatToHeaterAction` | pkg/vehicle/climate.go:110-133 | sets the seat field to the chosen marker and leaves the level field unchanged |
| `HeaterAdapters.AddLevelToHeaterAction` | pkg/vehicle/climate.go:144-157 | sets the level field to the chosen marker and leaves the seat field unchanged |
| `HeaterAdapters.HeaterActionFor` | pkg/vehicle/climate.go:163-165 | a fresh record filled by both adapters carries a seat marker and a level marker, each the one that stands for the given seat and level, or Unknown when there is none |
| `HeaterAdapters.ApplyAdaptersInBothOrders` | pkg/vehicle/climate.go:163-165 | applying the two adapters in either order gives the same record, carrying both chosen markers |
| `ClimateBuilders.CoolerSeatMapIsFrontSeats` | pkg/vehicle/climate.go:13-16 | the cooler table `CoolerSeatMap` holds exactly front-left and front-right, and no two seats share a cooler position |
| `ClimateBuilders.SeatCoolerPayload` | pkg/vehicle/climate.go:11-35 | fails with "invalid seat position" exactly for seats other than front-left and front-right; otherwise holds exactly one cooler record, whose position is the mapped front seat at every level, and which reads back as the given level and seat |
| `ClimateBuilders.SeatCoolerNamedLevels` | pkg/vehicle/climate.go:28-29 | Off..High reach the cooler as level + 1, so never as the wire's reserved 0, beside the mapped front seat |
| `ClimateBuilders.SeatCoolerLevelWrapsAtMaximum` | pkg/vehicle/climate.go:28 | the largest Level overflows on `+ 1` and reaches the cooler as wire level 0 |
| `ClimateBuilders.ClimateOnPayload` | pkg/vehicle/climate.go:38-49 | reads back as "climate on" (auto action with power on) |
| `ClimateBuilders.ClimateOffPayload` | pkg/vehicle/climate.go:51-62 | reads back as "climate off" (auto action with power off) |
| `ClimateBuilders.ChangeClimateTempPayload` | pkg/vehicle/climate.go:88-103 | reads back as the given driver and passenger temperatures, which the reader accepts only beside the TEMP_MAX marker |
| `ClimateBuilders.SteeringWheelHeaterPayload` | pkg/vehicle/climate.go:181-192 | reads back as the given on/off |
| `ClimateBuilders.PreconditioningMaxPayload` | pkg/vehicle/climate.go:194-206 | reads back as the two given booleans, independently |
| `ClimateBuilders.BioweaponDefenseModePayload` | pkg/vehicle/climate.go:208-221 | reads back as the two given booleans, independently |
| `ClimateBuilders.CabinOverheatProtectionPayload` | pkg/vehicle/climate.go:223-235 | reads back as the given enabled and fan-only flags |
| `ClimateBuilders.CabinOverheatProtectionTemperaturePayload` | pkg/vehicle/climate.go:237-248 | the level is converted with no offset: any level that fits 32 bits reads back as itself |
| `ClimateBuilders.ClimateKeeperModePayload` | pkg/vehicle/climate.go:250-271 | the mode and override pass through unchanged |
| `ClimateBuilders.CoolerOffsetAgainstCopTemperature` | pkg/vehicle/climate.go:243 | the same level reaches the seat cooler one higher than the overheat-protection temperature: modulo 2^32 at every level, and exactly wherever the level and its successor fit in 32 bits |
| `ClimateBuilders.AutoSeats` | pkg/vehicle/climate.go:64-75 | the seat list is never longer than the input, and every entry carries On == enabled |
| `ClimateBuilders.AutoSeatLookupIsKnownSeats` | pkg/vehicle/climate.go:65-69 | the lookup table `AutoSeatLookup` holds exactly SeatUnknown, front-left and front-right, each kept under its own position |
| `ClimateBuilders.AutoSeatLookupInjective` | pkg/vehicle/climate.go:65-69 | the three known seats map to three distinct wire positions |
| `ClimateBuilders.AutoSeatsAppend` | pkg/vehicle/climate.go:71-75 | the list for a concatenation is the concatenation of the lists, so input order is kept |
| `ClimateBuilders.AutoSeatsIsFilter` | pkg/vehicle/climate.go:65-75 | the list is the input filtered to {SeatUnknown, SeatFrontLeft, SeatFrontRight}, each kept seat mapped through the lookup and carrying `enabled` |
| `ClimateBuilders.AutoSeatsCount` | pkg/vehicle/climate.go:71-74 | duplicates are kept: each known seat occurs in the output as often as in the input |
| `ClimateBuilders.AutoSeatsKeepsAll` | pkg/vehicle/climate.go:72 | the output is as long as the input if and only if every input seat is known |
| `ClimateBuilders.CollectAutoSeats` | pkg/vehicle/climate.go:70-75 | the loop builds exactly the specified seat list |
| `ClimateBuilders.AutoSeatsDropsSecondRow` | pkg/vehicle/climate.go:64-75 | [front-left, second-row-left] with enabled gives the single entry (on, front-left) |
| `ClimateBuilders.HeaterActionsFor` | pkg/vehicle/climate.go:160-167 | one sub-record per visited key |
| `ClimateBuilders.HeaterActionsForAt` | pkg/vehicle/climate.go:162-166 | sub-record i carries the markers the two adapters choose for the i-th key and its level |
| `ClimateBuilders.HeaterActionsCount` | pkg/vehicle/climate.go:162-167 | over distinct keys, each sub-record value occurs as often as there are listed keys whose entry yields it |
| `ClimateBuilders.SeatHeaterCounts` | pkg/vehicle/climate.go:159-167 | for any iteration order, each sub-record value occurs as often as there are map entries yielding it |
| `ClimateBuilders.SeatHeaterOrderIrrelevant` | pkg/vehicle/climate.go:162 | two iteration orders of the same map give the same multiset of sub-records |
| `ClimateBuilders.BuildHeaterActions` | pkg/vehicle/climate.go:160-167 | the loop visits every key exactly once, in some order, and emits exactly one sub-record per map entry |
| `ClimateBuilders.SeatHeaterTwoEntries` | pkg/vehicle/climate.go:159-178 | {front-left: High, second-row-centre: Off} gives exactly two sub-records, (FRONT_LEFT, HIGH) and (REAR_CENTER, OFF), in any order |
| `Vehicles.Vehicle.ExecuteCarServerAction` | pkg/vehicle/climate.go:21 | records the payload with the reply it returns; the reply is success or a dispatch failure |
| `Vehicles.Vehicle.SetSeatCooler` | pkg/vehicle/climate.go:11-36 | an invalid seat returns the error and submits nothing; a front seat submits its cooler payload once and returns dispatch's reply |
| `Vehicles.Vehicle.ClimateOn` | pkg/vehicle/climate.go:38-49 | submits the climate-on payload once and returns dispatch's reply |
| `Vehicles.Vehicle.ClimateOff` | pkg/vehicle/climate.go:51-62 | submits the climate-off payload once and returns dispatch's reply |
| `Vehicles.Vehicle.AutoSeatAndClimate` | pkg/vehicle/climate.go:64-86 | always submits exactly one payload, holding the filtered seat list; unknown seats cause no error |
| `Vehicles.Vehicle.ChangeClimateTemp` | pkg/vehicle/climate.go:88-103 | submits the temperature payload once and returns dispatch's reply |
| `Vehicles.Vehicle.SetSeatHeater` | pkg/vehicle/climate.go:159-179 | submits one payload whose sub-records follow some enumeration of the map's keys |
| `Vehicles.Vehicle.SetSteeringWheelHeater` | pkg/vehicle/climate.go:181-192 | submits the steering-wheel payload once and returns dispatch's reply |
| `Vehicles.Vehicle.SetPreconditioningMax` | pkg/vehicle/climate.go:194-206 | submits the preconditioning payload once and returns dispatch's reply |
| `Vehicles.Vehicle.SetBioweaponDefenseMode` | pkg/vehicle/climate.go:208-221 | submits the bioweapon-mode payload once and returns dispatch's reply |
| `Vehicles.Vehicle.SetCabinOverheatProtection` | pkg/vehicle/climate.go:223-235 | submits the overheat-protection payload once and returns dispatch's reply |
| `Vehicles.Vehicle.SetCabinOverheatProtectionTemperature` | pkg/vehicle/climate.go:237-248 | submits the activation-temperature payload once and returns dispatch's reply |
| `Vehicles.Vehicle.SetClimateKeeperMode` | pkg/vehicle/climate.go:259-271 | submits the climate-keeper payload once and returns dispatch's reply |
| `Vehicles.ClimateOnTwice` | pkg/vehicle/climate.go:38-49 | two identical calls append exactly two exchanges, both carrying the climate-on payload, each with its own reply, and leave earlier ones untouched |
| `Vehicles.RearSeatCoolerNeverDispatched` | pkg/vehicle/climate.go:17-20 | a second-row seat returns the invalid-argument error and leaves the record of submissions unchanged |

## Left out

- `executeCarServerAction` and everything behind it (sessions, encryption, retries, transport) are not part of this model. Dispatch is a recorder that answers success or a dispatch failure by nondeterministic choice.
- `context.Context` cancellation and timeouts belong to dispatch and are not modelled.
- `float32` temperatures are carried as their 32-bit patterns and never interpreted. No floating-point reasoning is done.
- Protobuf encoding is not modelled: the payload is a Dafny value of the message shape, not bytes.
- The Go payload holds pointers to the heater-action records. The model snapshots each record's value when appending it. Nothing touches a record after it is appended, so no observable behaviour differs, but aliasing is not modelled.
- Go's randomised map iteration order is a nondeterministic key choice in `BuildHeaterActions`. The visited order is returned as a ghost value.
- The loops of `AutoSeatAndClimate` and `SetSeatHeater` are separate methods (`CollectAutoSeats`, `BuildHeaterActions`) called by the `Vehicle` methods, not inlined in them.
- The declaration of `SeatPosition` is outside `climate.go`. It is modelled as a 64-bit integer type with its ten constants numbered 0 to 9 in the order Unknown, FrontLeft, FrontRight, SecondRowLeft, SecondRowLeftBack, SecondRowCenter, SecondRowRight, SecondRowRightBack, ThirdRowLeft, ThirdRowRight (assumed). The proofs rely only on the constants being distinct.
- `ClimateKeeperMode` is the wire schema's 32-bit enumeration, and any value passes through. The numbers 0 to 3 for Off, On, Dog and Camp are taken from the schema, which is not part of this model.
- `Decode` is a reader added by the model to state round trips. It is not an operation of the source, and it does not cover the two list payloads (automatic seat climate, seat heaters), which have their own lemmas.
- `CabinOverheatProtectionTemperaturePayload`: its round trip is stated only for levels that fit in 32 bits. Larger levels are truncated by `Ints.Int32Of`, as Go's conversion does.
- `SeatCoolerPayload`: its round trip is stated only when `level + 1` fits in 32 bits. The cooler position is stated at every level. Outside that range, the wire level is the wrapped value, as `SeatCoolerLevelWrapsAtMaximum` shows for the largest level.
- The code has no separate error kinds, only the message "invalid seat position" and dispatch's own errors; the model names them `InvalidArgument` and `DispatchFailure`. The climate-keeper mode is an open 32-bit enumeration, not a closed four-value set.
- Go's `int` is 64 bits wide only on 64-bit platforms. The model fixes that width, so `SeatCoolerLevelWrapsAtMaximum` describes those platforms; on a 32-bit `int` the largest level is a different value.
