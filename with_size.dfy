/**
 * The size state of `withSize` (src/hocs/withSize.js): the initial `size`
 * and the `onResize` handler that turns a ResizeObserver content rectangle
 * into a client size and stores it when it is positive and new.
 */
module WithSize {
  import opened Wrappers

  /** The fields of a ResizeObserver entry's `contentRect` that the handler reads. */
  datatype ContentRect = ContentRect(top: int, right: int, bottom: int, left: int, height: int, width: int)

  datatype Size = Size(height: int, width: int)

  /**
   * The client size of an element: the top offset plus the bottom padding plus
   * the content height, and likewise across. The content height and width
   * cancel out, leaving `top + bottom` and `left + right`.
   */
  function ClientSize(rect: ContentRect): (s: Size)
    ensures s.height == rect.top + rect.bottom
    ensures s.width == rect.left + rect.right
  {
    var paddingBottom := rect.bottom - rect.height;
    var paddingRight := rect.right - rect.width;
    Size(rect.top + paddingBottom + rect.height, rect.left + paddingRight + rect.width)
  }

  /** The rectangle of the resize test: 200 x 200 with a 100 x 100 content box. */
  lemma ResizeTestRect()
    ensures ClientSize(ContentRect(0, 200, 200, 0, 100, 100)) == Size(200, 200)
  {
  }

  class SizeState {
    var size: Size

    /** `withState('size', ...)`: the `size` prop when given, otherwise 0 x 0. */
    constructor (sizeProp: Option<Size> := None)
      ensures sizeProp.Some? ==> size == sizeProp.value
      ensures sizeProp.None? ==> size == Size(0, 0)
    {
      size := sizeProp.GetOr(Size(0, 0));
    }

    /**
     * `onResize(el, entries)`. Only the first entry is read; with no entry at
     * all, destructuring `undefined` throws, reported here as `threw`. A size
     * with a non-positive side is ignored, one equal to the current size does
     * not call `setSize` (`updated` is false), and any other computed size
     * replaces the current one.
     */
    method OnResize(entries: seq<ContentRect>) returns (threw: bool, updated: bool)
      modifies this
      ensures threw <==> entries == []
      ensures updated <==> entries != [] && ClientSize(entries[0]).height > 0
                           && ClientSize(entries[0]).width > 0 && ClientSize(entries[0]) != old(size)
      ensures updated ==> size == ClientSize(entries[0])
      ensures !updated ==> size == old(size)
    {
      if entries == [] {
        return true, false;
      }
      threw, updated := false, false;
      var nextSize := ClientSize(entries[0]);
      if nextSize.height <= 0 || nextSize.width <= 0 {
        return;
      }
      if size == nextSize {
        return;
      }
      SetSize(nextSize);
      updated := true;
    }

    method SetSize(next: Size)
      modifies this
      ensures size == next
    {
      size := next;
    }
  }
}
