/** The type-tag dispatch of src/clifb.c: the generic `init_fb`,
    `destroy_fb` and `refresh_fb` look at the tag in the first field of the
    framebuffer and hand over to the monochrome doubled framebuffer, the only
    kind with an implementation. */
module Dispatch {
  import opened PixelGrid
  import opened Device
  import opened MonoFb

  /** init_fb.  For the monochrome tag the result of init_mono_doubled_fb is
      passed on with status 0 even when it is NULL; every other tag, the
      declared but unimplemented symbol framebuffer included, yields NULL and
      status -1 and touches neither the screen nor the heap. */
  method InitFb(fbType: FbType, term: Terminal, heap: Allocator, structAllocates: bool, itemsAllocates: bool)
    returns (status: int, fb: MonoDoubledFb?)
    modifies term, heap
    ensures fbType == MonoDoubledFramebuffer ==>
              status == 0 && (fb != null <==> structAllocates && itemsAllocates)
    ensures fbType == MonoDoubledFramebuffer && fb != null ==>
              fresh(fb) && fresh(fb.items) && fb.Valid() && fb.fbType == MonoDoubledFramebuffer &&
              fb.sizeX == 2 * term.cols && fb.sizeY == 2 * term.rows &&
              fb.Cells() == Uniform(fb.sizeY * fb.sizeX, false) &&
              heap.live == old(heap.live) + {fb, fb.items}
    ensures fbType == MonoDoubledFramebuffer && structAllocates ==> term.inScreenMode
    ensures fbType == MonoDoubledFramebuffer && !structAllocates ==>
              term.inScreenMode == old(term.inScreenMode) && heap.live == old(heap.live)
    ensures fbType != MonoDoubledFramebuffer ==>
              status == -1 && fb == null &&
              term.inScreenMode == old(term.inScreenMode) && heap.live == old(heap.live)
    ensures term.trace == old(term.trace)
  {
    match fbType {
      case MonoDoubledFramebuffer =>
        ghost var leaked;
        fb, leaked := InitMonoDoubledFb(term, heap, structAllocates, itemsAllocates);
        status := 0;
      case SymbolFramebuffer =>
        fb := null;
        status := -1;
    }
  }

  /** destroy_fb: frees a monochrome framebuffer and ends screen mode; for
      any other tag nothing changes. */
  method DestroyFb(fb: MonoDoubledFb, term: Terminal, heap: Allocator)
    requires fb.fbType == MonoDoubledFramebuffer ==>
               fb.items != null && fb in heap.live && fb.items in heap.live
    modifies term, heap
    ensures fb.fbType == MonoDoubledFramebuffer ==>
              heap.live == old(heap.live) - {fb, fb.items} && !term.inScreenMode
    ensures fb.fbType != MonoDoubledFramebuffer ==>
              heap.live == old(heap.live) && term.inScreenMode == old(term.inScreenMode)
    ensures term.trace == old(term.trace)
  {
    match fb.fbType {
      case MonoDoubledFramebuffer =>
        DestroyMonoDoubledFb(fb, term, heap);
      case SymbolFramebuffer =>
    }
  }

  /** refresh_fb: a monochrome framebuffer is drawn, flushed and cleared;
      for any other tag neither the grid nor the screen changes. */
  method RefreshFb(fb: MonoDoubledFb, term: Terminal)
    requires fb.fbType == MonoDoubledFramebuffer ==> fb.Valid()
    modifies fb.items, term
    ensures fb.fbType == MonoDoubledFramebuffer ==>
              term.trace == old(term.trace) + Frame(old(fb.Cells()), fb.sizeX, fb.sizeY) + [Flush] &&
              fb.Cells() == Uniform(fb.sizeY * fb.sizeX, false)
    ensures fb.fbType != MonoDoubledFramebuffer ==>
              term.trace == old(term.trace) && (fb.items != null ==> fb.items[..] == old(fb.items[..]))
    ensures term.inScreenMode == old(term.inScreenMode)
  {
    match fb.fbType {
      case MonoDoubledFramebuffer =>
        RefreshMonoDoubledFb(fb, term);
      case SymbolFramebuffer =>
    }
  }
}
