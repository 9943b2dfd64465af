/** The boat catalogue (the `model.boat` package): the one boat kind whose class is part of this model. */
module Boats {

  import opened Wrappers
  import opened Grid

  /** How a placed boat lies on the grid. */
  datatype Alignment = Horizontal | Vertical

  /** The kinds of boat; only the aircraft carrier is modelled. */
  datatype Kind = AircraftCarrier

  /** A boat: its kind, and the top-left cell and alignment given when it was built positioned. */
  datatype Boat = Boat(kind: Kind, topLeft: Option<Coordinates>, alignment: Option<Alignment>)

  /** The default constructor: a boat that carries no position yet. */
  function NewAircraftCarrier(): (b: Boat)
    ensures b.kind == AircraftCarrier
    ensures b.topLeft == None && b.alignment == None
  {
    Boat(AircraftCarrier, None, None)
  }

  /** The positioned constructor: hands its top-left cell and alignment to the boat base unchanged. */
  function NewPositionedAircraftCarrier(topLeft: Coordinates, alignment: Alignment): (b: Boat)
    ensures b.kind == AircraftCarrier
    ensures b.topLeft == Some(topLeft) && b.alignment == Some(alignment)
  {
    Boat(AircraftCarrier, Some(topLeft), Some(alignment))
  }

  /** The display name of a boat; it depends on the kind alone. */
  function Name(b: Boat): string
  {
    match b.kind
    case AircraftCarrier => "Aircraft carrier"
  }

  /** The number of cells a boat occupies; it depends on the kind alone. */
  function Size(b: Boat): int
  {
    match b.kind
    case AircraftCarrier => 4
  }

  /** Whatever constructor built an aircraft carrier, and with whatever position, it has 4 cells. */
  lemma AircraftCarrierSize(b: Boat)
    requires b.kind == AircraftCarrier
    ensures Size(b) == 4
  {
  }

  /** Whatever constructor built an aircraft carrier, its name is "Aircraft carrier". */
  lemma AircraftCarrierName(b: Boat)
    requires b.kind == AircraftCarrier
    ensures Name(b) == "Aircraft carrier"
  {
  }

  /** Size and name are constants of the kind: position and alignment play no part in them. */
  lemma SizeAndNameIgnorePosition(b: Boat, c: Boat)
    requires b.kind == c.kind
    ensures Size(b) == Size(c) && Name(b) == Name(c)
    ensures Size(NewAircraftCarrier()) == Size(b) || b.kind != AircraftCarrier
  {
  }
}
