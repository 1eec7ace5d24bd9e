/** The plain values of the particle-life simulation: positions, velocities,
    colours, particles and axis-aligned rectangles. Coordinates are exact reals
    (the program uses f64; rounding is not modelled). */
module Types {

  /** Optional value, as Rust's Option. */
  datatype Option<T> = None | Some(value: T)

  datatype Position = Position(x: real, y: real)

  datatype Velocity = Velocity(x: real, y: real)

  /** An RGBA colour, compared component-wise as the graphics library does. */
  datatype Color = Color(r: real, g: real, b: real, a: real)

  /** The four colours particles are drawn in (the graphics library's palette). */
  const RED: Color := Color(0.90, 0.16, 0.22, 1.0)
  const GREEN: Color := Color(0.0, 0.89, 0.19, 1.0)
  const BLUE: Color := Color(0.0, 0.47, 0.95, 1.0)
  const YELLOW: Color := Color(0.99, 0.98, 0.0, 1.0)

  datatype Particle = Particle(position: Position, color: Color, velocity: Velocity)

  /** An axis-aligned rectangle whose top-left corner is `position`; y grows downwards. */
  datatype Rectangle = Rectangle(height: real, width: real, position: Position)
}
