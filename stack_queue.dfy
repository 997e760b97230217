/**
 * `StackVisualizater.tsx`: a stack and a queue of numbers sharing one text
 * input. Every handler builds a new array and hands it to the state setter,
 * so the component is modelled on values: a `Panel` holds the state and each
 * handler is a function from the old panel to the new. The numbers are read
 * with `parseInt`, so `NaN` can be pushed.
 */
module StackQueue {
  import opened Numbers

  datatype Panel = Panel(stack: seq<Num>, queue: seq<Num>, input: string)

  /** The first render: both structures empty, the input blank. */
  function Initial(): (p: Panel)
    ensures p.stack == [] && p.queue == [] && p.input == ""
  {
    Panel([], [], "")
  }

  /** The input's `onChange`. */
  function Typed(p: Panel, text: string): (r: Panel)
    ensures r.input == text && r.stack == p.stack && r.queue == p.queue
  {
    p.(input := text)
  }

  /** `push`: a non-empty input becomes the new top and is cleared; an empty one changes nothing. */
  function Push(p: Panel): (r: Panel)
    ensures p.input != "" ==> |r.stack| == |p.stack| + 1 && r.stack[..|p.stack|] == p.stack
                              && r.stack[|p.stack|] == ParseInt(p.input) && r.input == ""
    ensures p.input == "" ==> r == p
    ensures r.queue == p.queue
  {
    if p.input != "" then p.(stack := p.stack + [ParseInt(p.input)], input := "") else p
  }

  /** `pop`: the top goes, if there is one. */
  function Pop(p: Panel): (r: Panel)
    ensures |p.stack| > 0 ==> r.stack + [p.stack[|p.stack| - 1]] == p.stack
    ensures |p.stack| == 0 ==> r == p
    ensures r.queue == p.queue && r.input == p.input
  {
    if |p.stack| > 0 then p.(stack := p.stack[..|p.stack| - 1]) else p
  }

  /** `enqueue`: a non-empty input joins the rear and is cleared; an empty one changes nothing. */
  function Enqueue(p: Panel): (r: Panel)
    ensures p.input != "" ==> |r.queue| == |p.queue| + 1 && r.queue[..|p.queue|] == p.queue
                              && r.queue[|p.queue|] == ParseInt(p.input) && r.input == ""
    ensures p.input == "" ==> r == p
    ensures r.stack == p.stack
  {
    if p.input != "" then p.(queue := p.queue + [ParseInt(p.input)], input := "") else p
  }

  /** `dequeue`: the front goes, if there is one. */
  function Dequeue(p: Panel): (r: Panel)
    ensures |p.queue| > 0 ==> [p.queue[0]] + r.queue == p.queue
    ensures |p.queue| == 0 ==> r == p
    ensures r.stack == p.stack && r.input == p.input
  {
    if |p.queue| > 0 then p.(queue := p.queue[1..]) else p
  }

  /** A push of a typed number undone by a pop gives back the stack, the queue untouched. */
  lemma PushThenPop(p: Panel)
    requires p.input != ""
    ensures Pop(Push(p)) == p.(input := "")
  {
    assert Pop(Push(p)).stack == p.stack;
  }

  // ----- sequences of operations -----

  /** The numbers a sequence of typed texts contributes: the empty ones are skipped. */
  function Values(texts: seq<string>): (vs: seq<Num>)
    ensures |vs| <= |texts|
    decreases |texts|
  {
    if texts == [] then []
    else
      var last := texts[|texts| - 1];
      Values(texts[..|texts| - 1]) + (if last != "" then [ParseInt(last)] else [])
  }

  /** Typing each text and pressing Push after it. */
  function PushAll(p: Panel, texts: seq<string>): Panel
    decreases |texts|
  {
    if texts == [] then p else Push(Typed(PushAll(p, texts[..|texts| - 1]), texts[|texts| - 1]))
  }

  /** Typing each text and pressing Enqueue after it. */
  function EnqueueAll(p: Panel, texts: seq<string>): Panel
    decreases |texts|
  {
    if texts == [] then p else Enqueue(Typed(EnqueueAll(p, texts[..|texts| - 1]), texts[|texts| - 1]))
  }

  function PopTimes(p: Panel, n: nat): Panel
  {
    if n == 0 then p else Pop(PopTimes(p, n - 1))
  }

  function DequeueTimes(p: Panel, n: nat): Panel
  {
    if n == 0 then p else Dequeue(DequeueTimes(p, n - 1))
  }

  /** Pushes stack the typed numbers on top in order, and leave the queue alone. */
  lemma {:induction false} PushAllStacks(p: Panel, texts: seq<string>)
    ensures PushAll(p, texts).stack == p.stack + Values(texts)
    ensures PushAll(p, texts).queue == p.queue
    decreases |texts|
  {
    if texts != [] {
      PushAllStacks(p, texts[..|texts| - 1]);
    }
  }

  /** Enqueues line the typed numbers up at the rear in order, and leave the stack alone. */
  lemma {:induction false} EnqueueAllQueues(p: Panel, texts: seq<string>)
    ensures EnqueueAll(p, texts).queue == p.queue + Values(texts)
    ensures EnqueueAll(p, texts).stack == p.stack
    decreases |texts|
  {
    if texts != [] {
      EnqueueAllQueues(p, texts[..|texts| - 1]);
    }
  }

  /** `n` pops take `n` elements off the top, or empty the stack. */
  lemma {:induction false} PopTimesTakesTop(p: Panel, n: nat)
    ensures var k := if n <= |p.stack| then n else |p.stack|;
            PopTimes(p, n).stack == p.stack[..|p.stack| - k]
    ensures PopTimes(p, n).queue == p.queue
  {
    if n > 0 {
      PopTimesTakesTop(p, n - 1);
    }
  }

  /** `n` dequeues take `n` elements off the front, or empty the queue. */
  lemma {:induction false} DequeueTimesTakesFront(p: Panel, n: nat)
    ensures var k := if n <= |p.queue| then n else |p.queue|;
            DequeueTimes(p, n).queue == p.queue[k..]
    ensures DequeueTimes(p, n).stack == p.stack
  {
    if n > 0 {
      DequeueTimesTakesFront(p, n - 1);
      var k := if n - 1 <= |p.queue| then n - 1 else |p.queue|;
      if k < |p.queue| {
        assert p.queue[k..][1..] == p.queue[k + 1..];
      }
    }
  }

  /** Last in, first out: as many pops as numbers pushed give back the stack that was there before. */
  lemma LastInFirstOut(p: Panel, texts: seq<string>)
    ensures PopTimes(PushAll(p, texts), |Values(texts)|).stack == p.stack
  {
    PushAllStacks(p, texts);
    PopTimesTakesTop(PushAll(p, texts), |Values(texts)|);
    assert (p.stack + Values(texts))[..|p.stack|] == p.stack;
  }

  /** First in, first out: once the elements that were waiting have left, the queue is the typed numbers in order. */
  lemma FirstInFirstOut(p: Panel, texts: seq<string>)
    ensures DequeueTimes(EnqueueAll(p, texts), |p.queue|).queue == Values(texts)
  {
    EnqueueAllQueues(p, texts);
    DequeueTimesTakesFront(EnqueueAll(p, texts), |p.queue|);
    assert (p.queue + Values(texts))[|p.queue|..] == Values(texts);
  }
}
