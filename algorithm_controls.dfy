/**
 * `Graphs/AlgorithmControls.tsx`: whether the start button is enabled, and
 * the conversion between the animation delay in milliseconds and the
 * position of the 0..100 speed slider (fast to the right).
 */
module AlgorithmControls {
  import opened Wrappers
  import opened GraphTypes
  import opened GraphController

  const MAX_MS := 2000
  const MIN_MS := 100

  /** `canStart`: a start node, and for pathfinding an end node too. */
  predicate CanStart(alg: AlgorithmType, startNode: Option<NodeId>, endNode: Option<NodeId>)
  {
    Present(startNode) && (!IsPathfinding(alg) || Present(endNode))
  }

  /** When the button is disabled, `startAlgorithm` would reject the input as well. */
  lemma CannotStartRejected(alg: AlgorithmType, startNode: Option<NodeId>, endNode: Option<NodeId>, known: set<NodeId>)
    requires !CanStart(alg, startNode, endNode)
    ensures PlanStart(alg, startNode, endNode, known).Reject?
  {
  }

  /** With an enabled button and endpoints of the graph, `startAlgorithm` accepts the input. */
  lemma CanStartAccepted(alg: AlgorithmType, startNode: Option<NodeId>, endNode: Option<NodeId>, known: set<NodeId>)
    requires CanStart(alg, startNode, endNode) && startNode.value in known
    requires IsPathfinding(alg) ==> endNode.value in known
    ensures !PlanStart(alg, startNode, endNode, known).Reject?
  {
  }

  function Clamp(ms: int): (c: int)
    ensures MIN_MS <= c <= MAX_MS
    ensures MIN_MS <= ms <= MAX_MS ==> c == ms
    ensures ms < MIN_MS ==> c == MIN_MS
    ensures ms > MAX_MS ==> c == MAX_MS
  {
    if ms < MIN_MS then MIN_MS else if ms > MAX_MS then MAX_MS else ms
  }

  /**
   * `speedToSliderValue`: `Math.round(100 * (2000 - c) / 1900)` for the
   * clamped delay `c`. Rounding half up of a non-negative `x / y` is the
   * floor of `(2x + y) / 2y`.
   */
  function SpeedToSliderValue(ms: int): (v: int)
    ensures 0 <= v <= 100
  {
    var c := Clamp(ms);
    (200 * (MAX_MS - c) + (MAX_MS - MIN_MS)) / (2 * (MAX_MS - MIN_MS))
  }

  /**
   * `sliderValueToSpeed`: `2000 - (v / 100) * 1900`, rounded. For the
   * integer positions of the slider this is `2000 - 19 v`.
   */
  function SliderValueToSpeed(v: int): (ms: int)
    // every position of the slider gives a delay between the two bounds
    ensures 0 <= v <= 100 ==> MIN_MS <= ms <= MAX_MS
  {
    MAX_MS - 19 * v
  }

  /** The slowest delay is the leftmost position and the fastest the rightmost; delays beyond them clamp. */
  lemma SliderEnds(ms: int)
    ensures SpeedToSliderValue(MAX_MS) == 0 && SpeedToSliderValue(MIN_MS) == 100
    ensures ms >= MAX_MS ==> SpeedToSliderValue(ms) == 0
    ensures ms <= MIN_MS ==> SpeedToSliderValue(ms) == 100
  {
  }

  /** Every slider position gives a delay between 100 and 2000 ms, lower to the right. */
  lemma SpeedRange(v: int, w: int)
    requires 0 <= v <= 100
    ensures MIN_MS <= SliderValueToSpeed(v) <= MAX_MS
    ensures v < w ==> SliderValueToSpeed(w) < SliderValueToSpeed(v)
  {
  }

  /** Moving the slider and reading it back gives the same position. */
  lemma {:induction false} SliderRoundTrip(v: int)
    requires 0 <= v <= 100
    ensures SpeedToSliderValue(SliderValueToSpeed(v)) == v
  {
    var c := Clamp(SliderValueToSpeed(v));
    assert c == MAX_MS - 19 * v;
    assert 200 * (MAX_MS - c) + 1900 == 3800 * v + 1900;
  }

  /** Reading a delay onto the slider and back moves it by at most 9 ms, after clamping. */
  lemma {:induction false} SpeedRoundTrip(ms: int)
    ensures var back := SliderValueToSpeed(SpeedToSliderValue(ms));
            -9 <= back - Clamp(ms) <= 9
  {
    var c := Clamp(ms);
    var d := MAX_MS - c;
    var v := SpeedToSliderValue(ms);
    assert v == (200 * d + 1900) / 3800;
    assert 3800 * v <= 200 * d + 1900 < 3800 * v + 3800;
    assert SliderValueToSpeed(v) - c == d - 19 * v;
  }

  /** Slider positions keep the delays in order: a longer delay never sits to the right of a shorter one. */
  lemma {:induction false} SliderMonotone(a: int, b: int)
    requires a <= b
    ensures SpeedToSliderValue(b) <= SpeedToSliderValue(a)
  {
    var ca, cb := Clamp(a), Clamp(b);
    assert ca <= cb;
  }
}
