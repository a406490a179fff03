/**
  The choice of sort made when the window is built: the `type` argument
  selects the vertical sort ("v", any case), the horizontal sort ("h", any
  case), or neither, in which case a usage message is printed and the
  process ends with exit status 1.
 */
module Dispatch {
  import opened Lines
  import opened PixelSort

  datatype Direction = Vertical | Horizontal | Invalid

  /** What constructing the window leads to: the sorted image is shown, or the process exits. */
  datatype Outcome = Shown | Exit(status: int)

  /** ASCII lower-casing; the only letters compared here are 'v' and 'h', whose case folds are ASCII. */
  function LowerCase(c: char): char
  {
    if 'A' <= c <= 'Z' then (c as int + ('a' as int - 'A' as int)) as char else c
  }

  /**
    Same length and equal characters after ASCII case folding, which agrees
    with String.equalsIgnoreCase on the literals "v" and "h" compared here.
   */
  predicate EqualsIgnoreCase(s: string, t: string)
  {
    |s| == |t| && forall i :: 0 <= i < |s| ==> LowerCase(s[i]) == LowerCase(t[i])
  }

  /** The `type` argument picks the vertical sort for "v" or "V", the horizontal sort for "h" or "H". */
  function SelectSort(sortType: string): (d: Direction)
    ensures d == Vertical <==> sortType == "v" || sortType == "V"
    ensures d == Horizontal <==> sortType == "h" || sortType == "H"
    ensures d == Invalid <==> sortType !in {"v", "V", "h", "H"}
  {
    if EqualsIgnoreCase(sortType, "v") then
      Vertical
    else if EqualsIgnoreCase(sortType, "h") then
      Horizontal
    else
      Invalid
  }

  /**
    The sorting step of the window's constructor: run the sort `sortType`
    selects, or leave the image alone and exit with status 1. It dispatches
    to the corrected, snapshot-reading sorts; the sorts as written are the
    `Live` variants.
   */
  method SortByType(image: array2<Pixel>, mask: array2<int>, sortType: string, sortIdx: seq<int> -> seq<int>) returns (outcome: Outcome)
    requires IndexSort(sortIdx)
    requires SelectSort(sortType) == Vertical ==> mask.Length1 >= image.Length1
    requires SelectSort(sortType) == Horizontal ==> mask.Length0 >= image.Length0
    modifies image
    ensures outcome == if SelectSort(sortType) == Invalid then Exit(1) else Shown
    ensures SelectSort(sortType) == Vertical ==>
      forall c :: 0 <= c < image.Length1 ==> Column(image, c) == SortLine(old(Column(image, c)), sortIdx)
    ensures SelectSort(sortType) == Horizontal ==>
      forall r :: 0 <= r < image.Length0 ==> Row(image, r) == SortLine(old(Row(image, r)), sortIdx)
    ensures SelectSort(sortType) == Invalid ==> unchanged(image)
  {
    match SelectSort(sortType)
    case Vertical =>
      VerticalPixelSort(image, mask, sortIdx);
      outcome := Shown;
    case Horizontal =>
      HorizontalPixelSort(image, mask, sortIdx);
      outcome := Shown;
    case Invalid =>
      outcome := Exit(1);
  }

  /**
    Two runs on images with the same pixels, the same `type` and the same
    index-sort routine, but with different masks, leave the two images with the same pixels: the mask
    has no effect.
   */
  method MaskHasNoEffect(image1: array2<Pixel>, mask1: array2<int>, image2: array2<Pixel>, mask2: array2<int>, sortType: string, sortIdx: seq<int> -> seq<int>)
    requires IndexSort(sortIdx)
    requires image1 != image2
    requires image1.Length0 == image2.Length0 && image1.Length1 == image2.Length1
    requires forall r, c :: 0 <= r < image1.Length0 && 0 <= c < image1.Length1 ==> image1[r, c] == image2[r, c]
    requires SelectSort(sortType) == Vertical ==> mask1.Length1 >= image1.Length1 && mask2.Length1 >= image2.Length1
    requires SelectSort(sortType) == Horizontal ==> mask1.Length0 >= image1.Length0 && mask2.Length0 >= image2.Length0
    modifies image1, image2
    ensures forall r, c :: 0 <= r < image1.Length0 && 0 <= c < image1.Length1 ==> image1[r, c] == image2[r, c]
  {
    ghost var columns := seq(image1.Length1, c requires 0 <= c < image1.Length1 reads image1 => Column(image1, c));
    ghost var rows := seq(image1.Length0, r requires 0 <= r < image1.Length0 reads image1 => Row(image1, r));
    assert forall c :: 0 <= c < image1.Length1 ==> Column(image2, c) == columns[c];
    assert forall r :: 0 <= r < image1.Length0 ==> Row(image2, r) == rows[r];
    var outcome1 := SortByType(image1, mask1, sortType, sortIdx);
    var outcome2 := SortByType(image2, mask2, sortType, sortIdx);
    forall r, c | 0 <= r < image1.Length0 && 0 <= c < image1.Length1
      ensures image1[r, c] == image2[r, c]
    {
      match SelectSort(sortType)
      case Vertical =>
        assert image1[r, c] == Column(image1, c)[r] == SortLine(columns[c], sortIdx)[r] == Column(image2, c)[r];
      case Horizontal =>
        assert image1[r, c] == Row(image1, r)[c] == SortLine(rows[r], sortIdx)[c] == Row(image2, r)[c];
      case Invalid =>
    }
  }
}
