/** The map mode `TickLogic` derives once per tick from which map overlay is visible. */
module ViewState {
  import opened Wrappers

  /** The three values of the `bool? largeMap` field. */
  datatype Mode = SmallMap | LargeMap | Unavailable

  /** Mode selection: the small minimap wins whenever it is visible; the large map is used
      only when the small one is hidden; with neither visible no icon can be placed. */
  function SelectMode(smallMapVisible: bool, largeMapVisible: bool): (m: Mode)
    ensures m == SmallMap <==> smallMapVisible
    ensures m == LargeMap <==> !smallMapVisible && largeMapVisible
    ensures m == Unavailable <==> !smallMapVisible && !largeMapVisible
  {
    if smallMapVisible then SmallMap
    else if largeMapVisible then LargeMap
    else Unavailable
  }

  /** The value stored in `largeMap` for a mode: `false`, `true` or `null`. */
  function AsLargeMapFlag(m: Mode): Option<bool> {
    match m
    case SmallMap => Some(false)
    case LargeMap => Some(true)
    case Unavailable => None
  }

  /** The mode a `largeMap` value stands for, as `Render` reads it (`== true`,
      `== false`, otherwise). */
  function FromLargeMapFlag(flag: Option<bool>): Mode {
    if flag == Some(true) then LargeMap
    else if flag == Some(false) then SmallMap
    else Unavailable
  }

  /** The enumeration and the nullable flag carry the same information. */
  lemma LargeMapFlagRoundTrip(m: Mode, flag: Option<bool>)
    ensures FromLargeMapFlag(AsLargeMapFlag(m)) == m
    ensures AsLargeMapFlag(FromLargeMapFlag(flag)) == flag
  {
    match flag
    case None =>
    case Some(_) =>
  }
}
