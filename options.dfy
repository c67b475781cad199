/** The integer and boolean settings of the baker's `Options` record that
    the packing and compositing steps read. */
module BakeOptions {

  datatype Options = Options(
    oversample: int,
    alphaMin: int,
    alphaMax: int,
    padding: int,
    atlasWidth: int,
    atlasHeight: int,
    glyphHeight: int,   // if nonzero, every request gets this height
    yOffset: int,
    debugColor: seq<int>,
    showGrid: bool,
    errorOnCrop: bool)

  /** What `parse_command_line` leaves behind: oversample at least 1 and both
      alpha bounds in 0..255 are checked there, the colour channels are
      masked with 0xFF; sizes and padding are taken as non-negative. */
  predicate Valid(opt: Options) {
    && opt.oversample >= 1
    && 0 <= opt.alphaMin <= 255
    && 0 <= opt.alphaMax <= 255
    && opt.padding >= 0
    && opt.atlasWidth >= 0
    && opt.atlasHeight >= 0
    && opt.glyphHeight >= 0
    && |opt.debugColor| == 3
    && (forall i :: 0 <= i < 3 ==> 0 <= opt.debugColor[i] <= 255)
  }
}
