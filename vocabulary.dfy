/**
 * The domain values the climate builders accept: seat positions, levels and
 * climate-keeper modes. Both SeatPosition and Level are Go integer types, so
 * any integer of their width is a value, named or not.
 */
module Vocabulary {
  import opened Ints
  import opened CarServer

  /** Seat positions, numbered in declaration order from zero. */
  newtype SeatPosition = x: int | -0x8000_0000_0000_0000 <= x < 0x8000_0000_0000_0000

  const SeatUnknown: SeatPosition := 0
  const SeatFrontLeft: SeatPosition := 1
  const SeatFrontRight: SeatPosition := 2
  const SeatSecondRowLeft: SeatPosition := 3
  const SeatSecondRowLeftBack: SeatPosition := 4
  const SeatSecondRowCenter: SeatPosition := 5
  const SeatSecondRowRight: SeatPosition := 6
  const SeatSecondRowRightBack: SeatPosition := 7
  const SeatThirdRowLeft: SeatPosition := 8
  const SeatThirdRowRight: SeatPosition := 9

  /** Heating, cooling and protection levels: Go's `int` on 64-bit platforms. */
  newtype Level = x: int | -0x8000_0000_0000_0000 <= x < 0x8000_0000_0000_0000

  const LevelOff: Level := 0
  const LevelLow: Level := 1
  const LevelMed: Level := 2
  const LevelHigh: Level := 3

  /** The climate-keeper mode is the wire enumeration itself. */
  type ClimateKeeperMode = int32

  const ClimateKeeperModeOff: ClimateKeeperMode := ClimateKeeperActionOff
  const ClimateKeeperModeOn: ClimateKeeperMode := ClimateKeeperActionOn
  const ClimateKeeperModeDog: ClimateKeeperMode := ClimateKeeperActionDog
  const ClimateKeeperModeCamp: ClimateKeeperMode := ClimateKeeperActionCamp
}
