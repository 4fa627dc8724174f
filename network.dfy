/**
 * The neural network as the game sees it. Its weights are abstracted to the function they
 * compute (`forward`); training replaces that function by another of the same shape.
 * The network also records every training call it receives, so that what the game trains
 * it with is observable.
 */
module Net {

  /** One call of `Network::train`: the (input, target) pairs and the number of epochs. */
  datatype TrainingCall = TrainingCall(inputs: seq<seq<real>>, targets: seq<seq<real>>, epochs: nat)

  class Network {
    /** Length of an input vector (first layer size). */
    const inputSize: nat
    /** Length of an output vector (last layer size). */
    const outputSize: nat
    /** What `feed_forward` computes with the current weights. */
    var forward: seq<real> -> seq<real>
    /** The training calls received so far, oldest first. */
    var history: seq<TrainingCall>

    /** The layer sizes fix the length of every output. */
    ghost predicate Valid()
      reads this
    {
      forall input: seq<real> | |input| == inputSize :: |forward(input)| == outputSize
    }

    /** `Network::new`, with the randomly initialised weights given as the function they compute. */
    constructor (inputSize: nat, outputSize: nat, forward: seq<real> -> seq<real>)
      requires forall input: seq<real> | |input| == inputSize :: |forward(input)| == outputSize
      ensures Valid()
      ensures this.inputSize == inputSize && this.outputSize == outputSize
      ensures this.forward == forward && history == []
    {
      this.inputSize := inputSize;
      this.outputSize := outputSize;
      this.forward := forward;
      history := [];
    }

    /** `feed_forward`: inference with the current weights. */
    function FeedForward(input: seq<real>): (output: seq<real>)
      reads this
      requires Valid() && |input| == inputSize
      ensures |output| == outputSize
    {
      forward(input)
    }

    /**
     * `train`: online gradient descent over the pairs for `epochs` epochs. The arithmetic is
     * not modelled: `retrained` stands for what the updated weights compute, of the same
     * shape. With no epochs or no pairs no update step runs and the weights stay as they were.
     */
    method Train(inputs: seq<seq<real>>, targets: seq<seq<real>>, epochs: nat, retrained: seq<real> -> seq<real>)
      requires Valid() && |inputs| == |targets|
      requires forall i :: 0 <= i < |inputs| ==> |inputs[i]| == inputSize && |targets[i]| == outputSize
      requires forall input: seq<real> | |input| == inputSize :: |retrained(input)| == outputSize
      modifies this
      ensures Valid()
      ensures history == old(history) + [TrainingCall(inputs, targets, epochs)]
      ensures forward == if epochs == 0 || inputs == [] then old(forward) else retrained
    {
      if epochs > 0 && inputs != [] {
        forward := retrained;
      }
      history := history + [TrainingCall(inputs, targets, epochs)];
    }
  }
}
