/** Preview-size selection: `chooseOptimalSize` picks, from the output sizes a
    camera stream supports, the one whose area is closest to the area of the
    texture view. All arithmetic is Kotlin `Int` arithmetic. The choice itself
    is stated over the sequence of area differences, apart from how they are
    computed. */
module SizeNegotiator {
  import opened KotlinInt

  /** `android.util.Size`: an immutable width x height pair. */
  datatype Size = Size(width: Int32, height: Int32)

  /** `size.width * size.height`, computed in 32 bits. */
  function Area(s: Size): Int32 {
    Mul(s.width, s.height)
  }

  /** `abs(area - textureViewArea)`, computed in 32 bits. */
  function AreaDiff(s: Size, targetArea: Int32): Int32 {
    Abs(Sub(Area(s), targetArea))
  }

  /** The area difference of every candidate, in order. */
  function Diffs(choices: seq<Size>, targetArea: Int32): seq<int> {
    seq(|choices|, i requires 0 <= i < |choices| => AreaDiff(choices[i], targetArea) as int)
  }

  /** Index `k` holds a least difference, and every earlier difference is
      strictly larger: the first of the best. */
  predicate IsEarliestMin(d: seq<int>, k: int) {
    && 0 <= k < |d|
    && (forall j :: 0 <= j < |d| ==> d[k] <= d[j])
    && (forall j :: 0 <= j < k ==> d[k] < d[j])
  }

  /** A reference definition of the winner, independent of the loop: the better
      of the head and the winner of the tail, the head winning a tie. */
  function FirstMinIndex(d: seq<int>): (k: nat)
    requires |d| > 0
    ensures k < |d|
  {
    if |d| == 1 then 0
    else
      var t := 1 + FirstMinIndex(d[1..]);
      if d[t] < d[0] then t else 0
  }

  lemma {:induction false} FirstMinIndexIsEarliestMin(d: seq<int>)
    requires |d| > 0
    ensures IsEarliestMin(d, FirstMinIndex(d))
  {
    if |d| > 1 {
      var tail := d[1..];
      FirstMinIndexIsEarliestMin(tail);
      var t := 1 + FirstMinIndex(tail);
      forall j | 1 <= j < |d| ensures d[t] <= d[j] && (j < t ==> d[t] < d[j]) {
        assert d[j] == tail[j - 1];
      }
    }
  }

  /** The earliest least difference is unique: the predicate fixes the result,
      which with `FirstMinIndexIsEarliestMin` makes it the reference choice. */
  lemma EarliestMinIsUnique(d: seq<int>, k1: int, k2: int)
    requires IsEarliestMin(d, k1)
    requires IsEarliestMin(d, k2)
    ensures k1 == k2
  {
    var d1, d2 := d[k1], d[k2];
    assert d1 <= d2 && d2 <= d1;
    assert k1 < k2 ==> d2 < d1;
    assert k2 < k1 ==> d1 < d2;
  }

  /** `chooseOptimalSize(choices, textureViewWidth, textureViewHeight)`. The
      source indexes `choices[0]`, so an empty array is a caller error. */
  method ChooseOptimalSize(choices: seq<Size>, textureViewWidth: Int32, textureViewHeight: Int32)
    returns (selectedSize: Size)
    requires |choices| > 0
    ensures exists k :: IsEarliestMin(Diffs(choices, Mul(textureViewWidth, textureViewHeight)), k) && choices[k] == selectedSize
  {
    var textureViewArea := Mul(textureViewWidth, textureViewHeight);
    ghost var d := Diffs(choices, textureViewArea);
    selectedSize := choices[0];
    var minAreaDiff: Int32 := MAX_VALUE as Int32;
    ghost var selected := 0;
    for i := 0 to |choices|
      invariant 0 <= selected < |choices| && selectedSize == choices[selected]
      invariant i == 0 ==> selected == 0 && minAreaDiff as int == MAX_VALUE
      invariant i > 0 ==> selected < i && minAreaDiff as int == d[selected]
      invariant forall j :: 0 <= j < i ==> minAreaDiff as int <= d[j]
      invariant forall j :: 0 <= j < selected ==> minAreaDiff as int < d[j]
    {
      var areaDiff := AreaDiff(choices[i], textureViewArea);
      if areaDiff < minAreaDiff {
        selectedSize := choices[i];
        minAreaDiff := areaDiff;
        selected := i;
      }
    }
    assert IsEarliestMin(d, selected);
  }

  /** The sizes and the view are non-negative and no area exceeds `Int.MAX_VALUE`:
      then no 32-bit operation in the selection overflows. */
  predicate NoOverflow(choices: seq<Size>, width: Int32, height: Int32) {
    && 0 <= width && 0 <= height && width as int * height as int <= MAX_VALUE
    && forall s :: s in choices ==>
         0 <= s.width && 0 <= s.height && s.width as int * s.height as int <= MAX_VALUE
  }

  /** `|area - width * height|` over unbounded integers. */
  function ExactDiff(s: Size, width: int, height: int): int {
    var diff := s.width as int * s.height as int - width * height;
    if diff < 0 then -diff else diff
  }

  function ExactDiffs(choices: seq<Size>, width: int, height: int): seq<int> {
    seq(|choices|, i requires 0 <= i < |choices| => ExactDiff(choices[i], width, height))
  }

  lemma AreaDiffIsExact(s: Size, width: Int32, height: Int32)
    requires 0 <= width && 0 <= height && width as int * height as int <= MAX_VALUE
    requires 0 <= s.width && 0 <= s.height && s.width as int * s.height as int <= MAX_VALUE
    ensures AreaDiff(s, Mul(width, height)) as int == ExactDiff(s, width as int, height as int)
  {
    var area := s.width as int * s.height as int;
    var target := width as int * height as int;
    ProductIsNonNegative(s.width as int, s.height as int);
    ProductIsNonNegative(width as int, height as int);
    assert Area(s) as int == area;
    assert Mul(width, height) as int == target;
    assert Sub(Area(s), Mul(width, height)) as int == area - target;
  }

  lemma ProductIsNonNegative(x: int, y: int)
    requires 0 <= x && 0 <= y
    ensures 0 <= x * y
  {
  }

  /** Without overflow, the 32-bit differences are the true ones, so the
      selection is the selection by true areas. */
  lemma DiffsAreExact(choices: seq<Size>, width: Int32, height: Int32)
    requires NoOverflow(choices, width, height)
    ensures Diffs(choices, Mul(width, height)) == ExactDiffs(choices, width as int, height as int)
  {
    forall j | 0 <= j < |choices|
      ensures Diffs(choices, Mul(width, height))[j] == ExactDiffs(choices, width as int, height as int)[j]
    {
      assert choices[j] in choices;
      AreaDiffIsExact(choices[j], width, height);
    }
  }

  /** 640x480, 1280x720 and 1920x1080 against an 800x600 view: 640x480 wins,
      its area differing by 172800 against 441600 for 1280x720. */
  lemma ExampleSelection()
    ensures FirstMinIndex(Diffs([Size(640, 480), Size(1280, 720), Size(1920, 1080)], Mul(800, 600))) == 0
  {
    var cs := [Size(640, 480), Size(1280, 720), Size(1920, 1080)];
    var d := Diffs(cs, Mul(800, 600));
    assert Mul(800, 600) == 480000;
    assert d == [172800, 441600, 1593600];
    assert d[1..][1..] == [1593600];
  }
}
