/**
 * The renderer's size, shared by the picker, the exporter and the app: what
 * `renderer.getSize` reports and `renderer.setSize` sets, in CSS pixels.
 */
module Viewport {

  /** A width and a height in pixels. */
  datatype Size = Size(x: int, y: int)
}
