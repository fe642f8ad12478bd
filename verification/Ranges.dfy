/** ImPlotRange. */
module Ranges {
  datatype Range = Range(min: real, max: real) {
    function Size(): real {
      max - min
    }
  }
}
