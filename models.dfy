/** The plain value records of the renderer. */
module Models {

  /** An obstacle or the emitter's marker: integer centre and radius. */
  datatype Circle = Circle(x: int, y: int, r: int)

  /**
    * One ray of the field. The origin is the emitter position when the field was
    * generated. `turn` is the ray's angle as a fraction of a full turn (the angle in
    * radians is 2*pi*turn); `dx`, `dy` are the precomputed cosine and sine of that angle.
    */
  datatype Ray = Ray(xStart: int, yStart: int, turn: real, dx: real, dy: real)
}
