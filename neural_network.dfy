/**
 * `NeuralNetworkVisualizer.tsx`: a layered network whose layer sizes are
 * rebuilt from two sliders (the number of layers and the number of outputs)
 * and whose neurons and layers explain themselves on hover and on click.
 * The component's state is a class; the drawing and the animation are left
 * out, and the explanation texts are named by what they describe.
 */
module NeuralNetwork {

  /**
   * The layer sizes for `n` layers and `o` outputs: at least two layers (the
   * loop adds none below two), `n` of them otherwise, three inputs first,
   * `o` outputs last and four neurons in every layer between.
   */
  function Layers(n: int, o: int): (ls: seq<int>)
    ensures |ls| == (if n >= 2 then n else 2) && ls[0] == 3 && ls[|ls| - 1] == o
    ensures forall k :: 0 < k < |ls| - 1 ==> ls[k] == 4
  {
    [3] + seq(if n >= 2 then n - 2 else 0, _ => 4) + [o]
  }

  /** That shape determines the list: any list of it is the one `Layers` builds. */
  lemma ShapeIsLayers(ls: seq<int>, n: int, o: int)
    requires |ls| == (if n >= 2 then n else 2) && ls[0] == 3 && ls[|ls| - 1] == o
    requires forall k :: 0 < k < |ls| - 1 ==> ls[k] == 4
    ensures ls == Layers(n, o)
  {
    assert forall k :: 0 <= k < |ls| ==> ls[k] == Layers(n, o)[k];
  }

  /** The first render's `[3, 4, 4, 2]` is what four layers and two outputs build. */
  lemma InitialLayers()
    ensures Layers(4, 2) == [3, 4, 4, 2]
  {
  }

  /** `updateLayers`: start from `[3]`, push a four for each hidden layer, push the output count. */
  method UpdateLayers(n: int, o: int) returns (newLayers: seq<int>)
    ensures newLayers == Layers(n, o)
  {
    newLayers := [3];
    var i := 1;
    while i < n - 1
      invariant 1 <= i && (n >= 2 ==> i <= n - 1) && (n < 2 ==> i == 1)
      invariant newLayers == [3] + seq(i - 1, _ => 4)
    {
      newLayers := newLayers + [4];
      i := i + 1;
    }
    newLayers := newLayers + [o];
  }

  // ----- explanations -----

  /** What a neuron's hover text describes; the neuron and hidden layer numbers are the ones shown. */
  datatype NeuronText = NoText | InputNeuron(neuron: int) | OutputNeuron(neuron: int) | HiddenNeuron(layer: int, neuron: int)

  /** What a layer's popup describes. */
  datatype LayerText = InputLayer | OutputLayer | HiddenLayer(layer: int)

  /**
   * `getNeuronExplanation` among `count` layers: the switch tries the input
   * layer before the last one, and numbers neurons from one.
   */
  function NeuronExplanation(count: int, layerIndex: int, neuronIndex: int): (t: NeuronText)
    ensures t.InputNeuron? <==> layerIndex == 0
    ensures t.OutputNeuron? <==> layerIndex != 0 && layerIndex == count - 1
    ensures t.HiddenNeuron? <==> layerIndex != 0 && layerIndex != count - 1
    ensures t.HiddenNeuron? ==> t.layer == layerIndex
    ensures t != NoText && t.neuron == neuronIndex + 1
  {
    if layerIndex == 0 then InputNeuron(neuronIndex + 1)
    else if layerIndex == count - 1 then OutputNeuron(neuronIndex + 1)
    else HiddenNeuron(layerIndex, neuronIndex + 1)
  }

  /** `getLayerExplanation` among `count` layers, with the same order of cases. */
  function LayerExplanation(count: int, layerIndex: int): (t: LayerText)
    ensures t == InputLayer <==> layerIndex == 0
    ensures t == OutputLayer <==> layerIndex != 0 && layerIndex == count - 1
    ensures t.HiddenLayer? <==> layerIndex != 0 && layerIndex != count - 1
    ensures t.HiddenLayer? ==> t.layer == layerIndex
  {
    if layerIndex == 0 then InputLayer
    else if layerIndex == count - 1 then OutputLayer
    else HiddenLayer(layerIndex)
  }

  /**
   * Every drawn neuron explains the layer it sits in: one of the three
   * inputs in layer 0, one of the `o` outputs in the last layer, and one of
   * the four neurons of a hidden layer anywhere between; a layer's popup
   * agrees with its neurons.
   */
  lemma DrawnNeuronExplained(n: int, o: int, i: int, j: int)
    requires 0 <= i < |Layers(n, o)| && 0 <= j < Layers(n, o)[i]
    ensures var count := |Layers(n, o)|;
            var t := NeuronExplanation(count, i, j);
            (i == 0 ==> t == InputNeuron(j + 1) && j < 3 && LayerExplanation(count, i) == InputLayer)
            && (i == count - 1 ==> t == OutputNeuron(j + 1) && j < o && LayerExplanation(count, i) == OutputLayer)
            && (0 < i < count - 1 ==> t == HiddenNeuron(i, j + 1) && j < 4 && LayerExplanation(count, i) == HiddenLayer(i))
  {
  }

  // ----- the component -----

  class NeuralNetworkVisualizer {
    var layers: seq<int>
    var numLayers: int
    var numOutputs: int
    var explanation: NeuronText
    var activeLayer: int
    var showPopup: bool
    var showExplanation: bool
    var isAnimating: bool

    /** The layers drawn are always the ones the two slider values build. */
    predicate Valid()
      reads this
    {
      layers == Layers(numLayers, numOutputs)
    }

    /** The first render. */
    constructor ()
      ensures Valid()
      ensures layers == [3, 4, 4, 2] && numLayers == 4 && numOutputs == 2
      ensures explanation == NoText && activeLayer == -1
      ensures !showPopup && !showExplanation && !isAnimating
    {
      layers := [3, 4, 4, 2];
      numLayers := 4;
      numOutputs := 2;
      explanation := NoText;
      activeLayer := -1;
      showPopup := false;
      showExplanation := false;
      isAnimating := false;
    }

    /** `handleNumLayersChange` with the slider's value: the layers are rebuilt with the current output count. */
    method HandleNumLayersChange(newNumLayers: int)
      modifies this
      ensures Valid()
      ensures numLayers == newNumLayers && numOutputs == old(numOutputs)
      ensures layers == Layers(newNumLayers, old(numOutputs))
      ensures explanation == old(explanation) && activeLayer == old(activeLayer)
      ensures showPopup == old(showPopup) && showExplanation == old(showExplanation) && isAnimating == old(isAnimating)
    {
      numLayers := newNumLayers;
      layers := UpdateLayers(newNumLayers, numOutputs);
    }

    /** `handleNumOutputsChange` with the slider's value: the layers are rebuilt with the current layer count. */
    method HandleNumOutputsChange(newNumOutputs: int)
      modifies this
      ensures Valid()
      ensures numOutputs == newNumOutputs && numLayers == old(numLayers)
      ensures layers == Layers(old(numLayers), newNumOutputs)
      ensures explanation == old(explanation) && activeLayer == old(activeLayer)
      ensures showPopup == old(showPopup) && showExplanation == old(showExplanation) && isAnimating == old(isAnimating)
    {
      numOutputs := newNumOutputs;
      layers := UpdateLayers(numLayers, newNumOutputs);
    }

    /** `handleNeuronHover`: the hovered neuron's text among the drawn layers. */
    method HandleNeuronHover(layerIndex: int, neuronIndex: int)
      modifies this
      ensures explanation == NeuronExplanation(|layers|, layerIndex, neuronIndex)
      ensures layers == old(layers) && numLayers == old(numLayers) && numOutputs == old(numOutputs)
      ensures activeLayer == old(activeLayer) && showPopup == old(showPopup)
      ensures showExplanation == old(showExplanation) && isAnimating == old(isAnimating)
    {
      explanation := NeuronExplanation(|layers|, layerIndex, neuronIndex);
    }

    /** `handleNeuronMouseOut`: the hover text goes. */
    method HandleNeuronMouseOut()
      modifies this
      ensures explanation == NoText
      ensures layers == old(layers) && numLayers == old(numLayers) && numOutputs == old(numOutputs)
      ensures activeLayer == old(activeLayer) && showPopup == old(showPopup)
      ensures showExplanation == old(showExplanation) && isAnimating == old(isAnimating)
    {
      explanation := NoText;
    }

    /** `handleLayerClick`: the clicked layer's popup opens. */
    method HandleLayerClick(layerIndex: int)
      modifies this
      ensures activeLayer == layerIndex && showPopup
      ensures layers == old(layers) && numLayers == old(numLayers) && numOutputs == old(numOutputs)
      ensures explanation == old(explanation) && showExplanation == old(showExplanation) && isAnimating == old(isAnimating)
    {
      activeLayer := layerIndex;
      showPopup := true;
    }

    /** The popup's Close button. */
    method ClosePopup()
      modifies this
      ensures !showPopup
      ensures layers == old(layers) && numLayers == old(numLayers) && numOutputs == old(numOutputs)
      ensures explanation == old(explanation) && activeLayer == old(activeLayer)
      ensures showExplanation == old(showExplanation) && isAnimating == old(isAnimating)
    {
      showPopup := false;
    }

    /** The "Show Explanation" switch. */
    method SetShowExplanation(checked: bool)
      modifies this
      ensures showExplanation == checked
      ensures layers == old(layers) && numLayers == old(numLayers) && numOutputs == old(numOutputs)
      ensures explanation == old(explanation) && activeLayer == old(activeLayer)
      ensures showPopup == old(showPopup) && isAnimating == old(isAnimating)
    {
      showExplanation := checked;
    }

    /** `animateDataFlow` marks the network as animating; the transitions themselves are left out. */
    method AnimateDataFlow()
      modifies this
      ensures isAnimating
      ensures layers == old(layers) && numLayers == old(numLayers) && numOutputs == old(numOutputs)
      ensures explanation == old(explanation) && activeLayer == old(activeLayer)
      ensures showPopup == old(showPopup) && showExplanation == old(showExplanation)
    {
      isAnimating := true;
    }

    /** The timeout `animateDataFlow` sets, once it fires. */
    method AnimationFinished()
      modifies this
      ensures !isAnimating
      ensures layers == old(layers) && numLayers == old(numLayers) && numOutputs == old(numOutputs)
      ensures explanation == old(explanation) && activeLayer == old(activeLayer)
      ensures showPopup == old(showPopup) && showExplanation == old(showExplanation)
    {
      isAnimating := false;
    }
  }
}
