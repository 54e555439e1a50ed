/** The strip's pixel buffer as a value: what SetPixelColor does to it, and
    what a SetPixels item list does when its items are applied in order. */
module Pixels {
  import opened Wire

  /** The all-black strip. */
  function Blank(): (s: seq<RGB>)
    ensures |s| == PIXEL_COUNT
    ensures forall i :: 0 <= i < |s| ==> s[i] == BLACK
  {
    seq(PIXEL_COUNT, _ => BLACK)
  }

  /** SetPixelColor on a buffer: pixel `i` takes colour `c` and no other
      pixel changes; an index past the end of the strip is dropped. */
  function SetPixel(s: seq<RGB>, i: int, c: RGB): (r: seq<RGB>)
    ensures |r| == |s|
    ensures forall j :: 0 <= j < |s| ==> r[j] == (if j == i then c else s[j])
  {
    if 0 <= i < |s| then s[i := c] else s
  }

  /** Index byte of item `k` of a SetPixels list (four bytes per item). */
  function ItemIndex(items: seq<Byte>, k: nat): Byte
    requires 4 * k + 4 <= |items|
  {
    items[4 * k]
  }

  /** Colour of item `k` of a SetPixels list. */
  function ItemColour(items: seq<Byte>, k: nat): RGB
    requires 4 * k + 4 <= |items|
  {
    RGB(items[4 * k + 1], items[4 * k + 2], items[4 * k + 3])
  }

  /** The buffer after the first `n` items of a SetPixels list, applied in order. */
  function ApplyItems(s: seq<RGB>, items: seq<Byte>, n: nat): (r: seq<RGB>)
    requires 4 * n <= |items|
    ensures |r| == |s|
    decreases n
  {
    if n == 0 then s
    else SetPixel(ApplyItems(s, items, n - 1), ItemIndex(items, n - 1), ItemColour(items, n - 1))
  }

  /** How many four-byte items of a `count`-item list are read in full when
      `available` bytes follow the count byte; the read stops at the first
      item that does not arrive. */
  function AppliedItems(count: nat, available: nat): (n: nat)
    ensures n <= count && 4 * n <= available
    ensures n < count ==> available - 4 * n < 4
  {
    if 4 * count <= available then count else available / 4
  }

  /** Bytes after the first `n` items are never looked at. */
  lemma {:induction false} ApplyItemsPrefix(s: seq<RGB>, items: seq<Byte>, more: seq<Byte>, n: nat)
    requires 4 * n <= |items|
    ensures ApplyItems(s, items + more, n) == ApplyItems(s, items, n)
  {
    if n > 0 {
      ApplyItemsPrefix(s, items, more, n - 1);
      assert ItemIndex(items + more, n - 1) == ItemIndex(items, n - 1);
      assert ItemColour(items + more, n - 1) == ItemColour(items, n - 1);
    }
  }

  /** A pixel that no applied item names keeps its colour. */
  lemma {:induction false} ApplyItemsUntouched(s: seq<RGB>, items: seq<Byte>, n: nat, p: nat)
    requires 4 * n <= |items| && p < |s|
    requires forall k :: 0 <= k < n ==> ItemIndex(items, k) != p
    ensures ApplyItems(s, items, n)[p] == s[p]
  {
    if n > 0 {
      ApplyItemsUntouched(s, items, n - 1, p);
    }
  }

  /** The last applied item naming a pixel decides its colour. */
  lemma {:induction false} ApplyItemsLastWins(s: seq<RGB>, items: seq<Byte>, n: nat, k: nat)
    requires 4 * n <= |items| && k < n && ItemIndex(items, k) < |s|
    requires forall k' :: k < k' < n ==> ItemIndex(items, k') != ItemIndex(items, k)
    ensures ApplyItems(s, items, n)[ItemIndex(items, k)] == ItemColour(items, k)
  {
    if k < n - 1 {
      ApplyItemsLastWins(s, items, n - 1, k);
    }
  }

  /** A one-item list is exactly one SetPixel command. */
  lemma OneItemIsOnePixel(s: seq<RGB>, b: seq<Byte>)
    requires |b| == 4
    ensures ApplyItems(s, b, 1) == SetPixel(s, b[0], RGB(b[1], b[2], b[3]))
  {
  }
}
