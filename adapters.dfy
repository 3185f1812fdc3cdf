/**
 * The two variant adapters: they turn a seat position and a heater level
 * into the marker messages of a seat-heater action, writing one field of a
 * caller's heater-action record each. Both are total: anything without a
 * marker of its own gets the Unknown marker.
 */
module HeaterAdapters {
  import opened Wrappers
  import opened CarServer
  import opened Vocabulary

  /** The nine seats that have a seat-heater marker of their own. */
  predicate HasHeaterMarker(s: SeatPosition)
  {
    s in {SeatFrontLeft, SeatFrontRight, SeatSecondRowLeft, SeatSecondRowLeftBack, SeatSecondRowCenter,
          SeatSecondRowRight, SeatSecondRowRightBack, SeatThirdRowLeft, SeatThirdRowRight}
  }

  /** The seat a heater marker stands for; the Unknown marker stands for none. */
  function SeatOfHeaterMarker(m: HeaterSeat): Option<SeatPosition>
  {
    match m
    case CarSeatUnknown => None
    case CarSeatFrontLeft => Some(SeatFrontLeft)
    case CarSeatFrontRight => Some(SeatFrontRight)
    case CarSeatRearLeft => Some(SeatSecondRowLeft)
    case CarSeatRearLeftBack => Some(SeatSecondRowLeftBack)
    case CarSeatRearCenter => Some(SeatSecondRowCenter)
    case CarSeatRearRight => Some(SeatSecondRowRight)
    case CarSeatRearRightBack => Some(SeatSecondRowRightBack)
    case CarSeatThirdRowLeft => Some(SeatThirdRowLeft)
    case CarSeatThirdRowRight => Some(SeatThirdRowRight)
  }

  /**
   * The marker the seat adapter selects. Each named seat gets the marker
   * that stands for it (so no two share one), and every other value,
   * SeatUnknown included, gets CarSeatUnknown.
   */
  function HeaterSeatOf(s: SeatPosition): (m: HeaterSeat)
    ensures SeatOfHeaterMarker(m) == if HasHeaterMarker(s) then Some(s) else None
  {
    if s == SeatFrontLeft then CarSeatFrontLeft
    else if s == SeatFrontRight then CarSeatFrontRight
    else if s == SeatSecondRowLeft then CarSeatRearLeft
    else if s == SeatSecondRowLeftBack then CarSeatRearLeftBack
    else if s == SeatSecondRowCenter then CarSeatRearCenter
    else if s == SeatSecondRowRight then CarSeatRearRight
    else if s == SeatSecondRowRightBack then CarSeatRearRightBack
    else if s == SeatThirdRowLeft then CarSeatThirdRowLeft
    else if s == SeatThirdRowRight then CarSeatThirdRowRight
    else CarSeatUnknown
  }

  /** Every seat marker, Unknown included, is selected by some seat position. */
  lemma HeaterSeatOfReachesEveryMarker(m: HeaterSeat)
    ensures exists s :: HeaterSeatOf(s) == m
  {
    match SeatOfHeaterMarker(m)
    case None =>
      assert HeaterSeatOf(SeatUnknown) == m;
    case Some(s) =>
      assert HeaterSeatOf(s) == m;
  }

  /** The four named levels Off, Low, Med and High. */
  predicate HasLevelMarker(l: Level)
  {
    LevelOff <= l <= LevelHigh
  }

  /** The level a heater-level marker stands for; the Unknown marker stands for none. */
  function LevelOfHeaterMarker(m: HeaterLevel): Option<Level>
  {
    match m
    case SeatHeaterUnknown => None
    case SeatHeaterOff => Some(LevelOff)
    case SeatHeaterLow => Some(LevelLow)
    case SeatHeaterMed => Some(LevelMed)
    case SeatHeaterHigh => Some(LevelHigh)
  }

  /**
   * The marker the level adapter selects: Off, Low, Med and High each get
   * their own marker, every other integer gets SeatHeaterUnknown.
   */
  function HeaterLevelOf(l: Level): (m: HeaterLevel)
    ensures LevelOfHeaterMarker(m) == if HasLevelMarker(l) then Some(l) else None
  {
    if l == LevelOff then SeatHeaterOff
    else if l == LevelLow then SeatHeaterLow
    else if l == LevelMed then SeatHeaterMed
    else if l == LevelHigh then SeatHeaterHigh
    else SeatHeaterUnknown
  }

  /** Every level marker, Unknown included, is selected by some level. */
  lemma HeaterLevelOfReachesEveryMarker(m: HeaterLevel)
    ensures exists l :: HeaterLevelOf(l) == m
  {
    match LevelOfHeaterMarker(m)
    case None =>
      assert HeaterLevelOf(-1) == m;
    case Some(l) =>
      assert HeaterLevelOf(l) == m;
  }

  /**
   * A seat-heater action record as the builder allocates and fills it in
   * place. A fresh record has both fields unset.
   */
  class SeatHeaterActionRecord {
    var seatPosition: Option<HeaterSeat>
    var seatHeaterLevel: Option<HeaterLevel>

    constructor ()
      ensures seatPosition == None && seatHeaterLevel == None
    {
      seatPosition := None;
      seatHeaterLevel := None;
    }

    /** The wire value the record currently holds. */
    function Value(): SeatHeaterAction
      reads this
    {
      SeatHeaterAction(seatPosition, seatHeaterLevel)
    }
  }

  /** The seat adapter: sets the seat marker and leaves the level field as it was. */
  method AddSeatToHeaterAction(s: SeatPosition, action: SeatHeaterActionRecord)
    modifies action
    ensures action.seatPosition == Some(HeaterSeatOf(s))
    ensures action.seatHeaterLevel == old(action.seatHeaterLevel)
  {
    action.seatPosition := Some(HeaterSeatOf(s));
  }

  /** The level adapter: sets the level marker and leaves the seat field as it was. */
  method AddLevelToHeaterAction(l: Level, action: SeatHeaterActionRecord)
    modifies action
    ensures action.seatHeaterLevel == Some(HeaterLevelOf(l))
    ensures action.seatPosition == old(action.seatPosition)
  {
    action.seatHeaterLevel := Some(HeaterLevelOf(l));
  }

  /** The per-entry heater sub-record: both adapters applied to a fresh record. */
  function HeaterActionFor(position: SeatPosition, level: Level): (r: SeatHeaterAction)
    ensures r.seatPosition.Some? && SeatOfHeaterMarker(r.seatPosition.value) == if HasHeaterMarker(position) then Some(position) else None
    ensures r.seatHeaterLevel.Some? && LevelOfHeaterMarker(r.seatHeaterLevel.value) == if HasLevelMarker(level) then Some(level) else None
  {
    SeatHeaterAction(Some(HeaterSeatOf(position)), Some(HeaterLevelOf(level)))
  }

  /**
   * Applying the two adapters to fresh records in either order gives the
   * same record, because each writes only its own field.
   */
  method ApplyAdaptersInBothOrders(position: SeatPosition, level: Level)
    returns (seatFirst: SeatHeaterAction, levelFirst: SeatHeaterAction)
    ensures seatFirst == levelFirst
    ensures seatFirst == HeaterActionFor(position, level)
  {
    var a := new SeatHeaterActionRecord();
    AddSeatToHeaterAction(position, a);
    AddLevelToHeaterAction(level, a);
    seatFirst := a.Value();
    var b := new SeatHeaterActionRecord();
    AddLevelToHeaterAction(level, b);
    AddSeatToHeaterAction(position, b);
    levelFirst := b.Value();
  }
}
