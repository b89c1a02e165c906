/** The species catalogue: the six molecule kinds of the reaction
      3 Ag2S + 2 Al + 6 H2O -> 6 Ag + 2 Al(OH)3 + 3 H2S
    and the collision radius each molecule template carries. Only the radius
    takes part in the simulation; atom layouts, colours and labels are drawing
    data and are not modelled. */
module Catalog {

  datatype Species = Ag2S | Al | H2O | Ag | AlOH3 | H2S

  /** The `cr` field of the species template. */
  function CollisionRadius(t: Species): (r: real)
    ensures 16.0 <= r <= MaxRadius
  {
    match t
    case Ag2S => 28.0
    case Al => 18.0
    case H2O => 16.0
    case Ag => 18.0
    case AlOH3 => 22.0
    case H2S => 18.0
  }

  /** The largest collision radius of the catalogue (that of Ag2S). */
  const MaxRadius: real := 28.0

  /** Extra distance, beyond touching, at which an Al and an Ag2S still count
      as colliding for the reaction. */
  const ContactMargin: real := 6.0
}
