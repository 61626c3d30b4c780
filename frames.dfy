/** The per-frame metadata record of the buffer pool (FrameDesc). */
module Frames {
  import opened Global

  /** One buffer-pool slot. The page bytes it inherits from Page are opaque
      and are not modelled; `pageno == None` stands for a null page id. */
  class FrameDesc {
    var dirty: bool
    var valid: bool
    var pageno: Option<PageId>
    var pinCount: nat
    var refbit: bool

    /** The state of a frame that has never held a page. */
    ghost predicate Unused()
      reads this
    {
      !dirty && !valid && pageno == None && pinCount == 0 && !refbit
    }

    constructor ()
      ensures !valid && pinCount == 0 && !dirty && !refbit && pageno == None
      ensures Unused()
    {
      dirty := false;
      valid := false;
      pageno := None;
      pinCount := 0;
      refbit := false;
    }
  }
}
