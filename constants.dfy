/** Configuration constants of the renderer: viewport size, colours and ray count. */
module Constants {

  /** An unsigned 32-bit pixel value (RGBA8888), the element type of the frame buffer. */
  newtype Color = c: int | 0 <= c < 0x1_0000_0000

  const SCREEN_WIDTH: nat := 1200
  const SCREEN_HEIGHT: nat := 900
  const PIXELS: nat := SCREEN_WIDTH * SCREEN_HEIGHT

  const COLOR_BLACK: Color := 0x0000_0000
  const COLOR_RAY: Color := 0xFFFF_D700
  const COLOR_OBSTACLE: Color := 0xFFDC_143C

  const RAYS_NUMBER: nat := 1000

  /** The two colours a ray ever stores into the frame buffer. */
  predicate IsForeground(c: Color)
  {
    c == COLOR_RAY || c == COLOR_OBSTACLE
  }
}
