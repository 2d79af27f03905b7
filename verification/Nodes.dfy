/**
  Theme objects on the heap (struct obj and the type-specific structures of core/src/render.h).
 */
module Nodes {
  import opened Rects
  import opened Pixels
  import opened Boxes
  import opened Objects

  /** An object of the theme; `spec` is its fixed part. */
  class Node {
    const spec: Spec
    var bnd: VRect
    var curr: Box
    var cropCurr: VRect
    var invalid: bool
    var visible: bool
    var opacity: byte
    var tstep: int
    var step: int
    var wait: int

    constructor (o: Obj)
      ensures Val() == o
    {
      spec, bnd, curr, cropCurr := o.spec, o.bnd, o.curr, o.cropCurr;
      invalid, visible, opacity := o.invalid, o.visible, o.opacity;
      tstep, step, wait := o.tstep, o.step, o.wait;
    }

    ghost function Val(): Obj
      reads this
    {
      Obj(spec, bnd, curr, cropCurr, invalid, visible, opacity, tstep, step, wait)
    }
  }
}
