/**
 The buffer shapes of the draft layer classes in fnn/fnn.cpp: `Layer`,
 `LinearLayer`, `ActivationLayer` and `SigmoidLayer`.

 Only sizes and indices are modelled. A buffer is represented by its
 length; the floating-point values the layers compute are not. The two
 `forward` passes are written as the loops of the code, each recording the
 buffer accesses it makes, so that their bounds can be stated of every
 access.
 */
module Layers {
  import opened Machine
  import opened Arith

  /**
   A constructed layer. `features` is the length of `m_features`;
   a linear layer also owns `m_weights` and `m_biases`, an activation layer
   `m_derivates`.
   */
  datatype Layer =
    | Linear(numInputs: u32, numOutputs: u32, features: nat, weights: nat, biases: nat)
    | Sigmoid(numInputs: u32, numOutputs: u32, features: nat, derivates: nat)

  /** One element access of a `forward` pass. */
  datatype Access =
    | ReadInput(index: nat)
    | ReadWeight(index: nat)
    | ReadBias(index: nat)
    | WriteFeature(index: nat)
    | WriteDerivate(index: nat)

  /**
   The `Layer` base constructor: it stores both counts and resizes
   `m_features` to `numOutputs`. Returns the counts and that length.
   */
  function BaseLayer(numInputs: u32, numOutputs: u32): (r: (u32, u32, nat))
    ensures r.0 == numInputs && r.1 == numOutputs
    ensures r.2 == numOutputs
  {
    (numInputs, numOutputs, numOutputs)
  }

  /**
   The `LinearLayer` constructor. `numInputs * numOutputs` is a `uint32_t`
   product, so the weight buffer is that product modulo 2^32.
   */
  function NewLinearLayer(numInputs: u32, numOutputs: u32): (l: Layer)
    ensures l.Linear? && l.numInputs == numInputs && l.numOutputs == numOutputs
    ensures l.features == numOutputs && l.biases == numOutputs
    ensures l.weights == (numInputs * numOutputs) % Modulus
    ensures numInputs * numOutputs < Modulus ==> l.weights == numInputs * numOutputs
  {
    var (ins, outs, features) := BaseLayer(numInputs, numOutputs);
    MulExact(ins, outs);
    Linear(ins, outs, features, Mul(ins, outs), outs)
  }

  /**
   The `ActivationLayer` constructor, which `SigmoidLayer` calls unchanged:
   as many outputs as inputs, and a derivative per input.
   */
  function NewSigmoidLayer(numInputs: u32): (l: Layer)
    ensures l.Sigmoid? && l.numInputs == numInputs && l.numOutputs == numInputs
    ensures l.features == numInputs && l.derivates == numInputs
  {
    var (ins, outs, features) := BaseLayer(numInputs, numInputs);
    Sigmoid(ins, outs, features, ins)
  }

  /** An access stays inside the buffer it touches; the input holds `numInputs` values. */
  predicate InBounds(l: Layer, a: Access)
  {
    match a
    case ReadInput(i) => i < l.numInputs
    case ReadWeight(i) => l.Linear? && i < l.weights
    case ReadBias(i) => l.Linear? && i < l.biases
    case WriteFeature(i) => i < l.features
    case WriteDerivate(i) => l.Sigmoid? && i < l.derivates
  }

  /** Every access of a trace stays in bounds. */
  predicate AllInBounds(l: Layer, t: seq<Access>)
  {
    forall k :: 0 <= k < |t| ==> InBounds(l, t[k])
  }

  lemma AllInBoundsAppend(l: Layer, t: seq<Access>, u: seq<Access>)
    requires AllInBounds(l, t) && AllInBounds(l, u)
    ensures AllInBounds(l, t + u)
  {
    assert forall k :: 0 <= k < |t + u| ==> (t + u)[k] == if k < |t| then t[k] else u[k - |t|];
  }

  /** The weight indices a trace reads, in order. */
  function WeightReads(t: seq<Access>): seq<nat>
  {
    if t == [] then []
    else WeightReads(t[..|t| - 1]) + (if t[|t| - 1].ReadWeight? then [t[|t| - 1].index] else [])
  }

  /** The feature indices a trace writes. */
  function FeatureWrites(t: seq<Access>): set<nat>
  {
    if t == [] then {}
    else FeatureWrites(t[..|t| - 1]) + (if t[|t| - 1].WriteFeature? then {t[|t| - 1].index} else {})
  }

  /** The trace writes exactly the features `0 .. n - 1`. */
  ghost predicate WritesFeaturesBelow(t: seq<Access>, n: nat)
  {
    forall m: nat :: m in FeatureWrites(t) <==> m < n
  }

  /** The indices `0, 1, ..., n - 1` in order. */
  function Range(n: nat): (r: seq<nat>)
    ensures |r| == n
  {
    seq(n, i => i)
  }

  lemma WeightReadsSnoc(t: seq<Access>, a: Access)
    ensures WeightReads(t + [a]) == WeightReads(t) + (if a.ReadWeight? then [a.index] else [])
  {
    assert (t + [a])[..|t + [a]| - 1] == t;
  }

  lemma FeatureWritesSnoc(t: seq<Access>, a: Access)
    ensures FeatureWrites(t + [a]) == FeatureWrites(t) + (if a.WriteFeature? then {a.index} else {})
  {
    assert (t + [a])[..|t + [a]| - 1] == t;
  }

  lemma RangeSnoc(n: nat)
    ensures Range(n) + [n] == Range(n + 1)
  {
  }

  /**
   `LinearLayer::forward`: for each output `n`, store the bias, take the
   weight row starting at `m_numInputs * n` (a `uint32_t` product), and add
   `inputs[i] * weights[i]` for each input `i`.

   While `numInputs * numOutputs` does not wrap, every access is in bounds,
   the weights are read exactly once each in storage order, and the pass
   writes exactly the features `0 .. numOutputs - 1`.
   */
  method LinearForward(l: Layer) returns (trace: seq<Access>)
    requires l.Linear?
    requires l == NewLinearLayer(l.numInputs, l.numOutputs)
    ensures l.numInputs * l.numOutputs < Modulus ==> AllInBounds(l, trace)
    ensures l.numInputs * l.numOutputs < Modulus ==> WeightReads(trace) == Range(l.weights)
    ensures WritesFeaturesBelow(trace, l.numOutputs)
  {
    ghost var fits := l.numInputs * l.numOutputs < Modulus;
    trace := [];
    var n: u32 := 0;
    while n < l.numOutputs
      invariant n <= l.numOutputs
      invariant fits ==> AllInBounds(l, trace)
      invariant fits ==> WeightReads(trace) == Range(Times(n, l.numInputs))
      invariant WritesFeaturesBelow(trace, n)
    {
      trace := ForwardOutput(l, n, trace);
      n := n + 1;
    }
    if fits {
      TimesIsProduct(l.numOutputs, l.numInputs);
    }
  }

  /**
   One iteration of the outer loop of `LinearForward`: output `n` reads its
   bias, then the inputs against the weight row `m_numInputs * n`, writing
   feature `n` throughout. Appended to a trace that has handled the outputs
   below `n`, it extends the weight reads by the next row and the feature
   writes by `n`.
   */
  method ForwardOutput(l: Layer, n: u32, trace: seq<Access>) returns (trace': seq<Access>)
    requires l.Linear? && l == NewLinearLayer(l.numInputs, l.numOutputs) && n < l.numOutputs
    requires l.numInputs * l.numOutputs < Modulus ==> AllInBounds(l, trace)
    requires l.numInputs * l.numOutputs < Modulus ==> WeightReads(trace) == Range(Times(n, l.numInputs))
    requires WritesFeaturesBelow(trace, n)
    ensures l.numInputs * l.numOutputs < Modulus ==> AllInBounds(l, trace')
    ensures l.numInputs * l.numOutputs < Modulus ==> WeightReads(trace') == Range(Times(n + 1, l.numInputs))
    ensures WritesFeaturesBelow(trace', n + 1)
  {
    ghost var fits := l.numInputs * l.numOutputs < Modulus;
    trace' := ForwardBias(l, n, trace);
    if fits {
      assert AllInBounds(l, [ReadBias(n), WriteFeature(n)]);
      AllInBoundsAppend(l, trace, [ReadBias(n), WriteFeature(n)]);
    }
    var row := Mul(l.numInputs, n);
    if fits {
      RowStart(l.numInputs, l.numOutputs, n);
    }
    var i: u32 := 0;
    while i < l.numInputs
      invariant i <= l.numInputs
      invariant fits ==> AllInBounds(l, trace')
      invariant fits ==> WeightReads(trace') == Range(row + i)
      invariant WritesFeaturesBelow(trace', n + 1)
    {
      if fits {
        WeightInRow(l.numInputs, l.numOutputs, n, i);
      }
      ghost var before := trace';
      trace' := ForwardInput(l, n, row, i, trace');
      if fits {
        assert AllInBounds(l, [ReadInput(i), ReadWeight(row + i), WriteFeature(n)]);
        AllInBoundsAppend(l, before, [ReadInput(i), ReadWeight(row + i), WriteFeature(n)]);
        RangeSnoc(row + i);
      }
      i := i + 1;
    }
    if fits {
      TimesSucc(n, l.numInputs);
    }
  }

  /** The start of an outer iteration: read `biases[n]` and store it in feature `n`. */
  method ForwardBias(l: Layer, n: u32, trace: seq<Access>) returns (trace': seq<Access>)
    ensures trace' == trace + [ReadBias(n), WriteFeature(n)]
    ensures WeightReads(trace') == WeightReads(trace)
    ensures FeatureWrites(trace') == FeatureWrites(trace) + {n as nat}
  {
    WeightReadsSnoc(trace, ReadBias(n));
    FeatureWritesSnoc(trace, ReadBias(n));
    trace' := trace + [ReadBias(n)];
    WeightReadsSnoc(trace', WriteFeature(n));
    FeatureWritesSnoc(trace', WriteFeature(n));
    trace' := trace' + [WriteFeature(n)];
  }

  /** One iteration of the inner loop: read `inputs[i]` and `weights[row + i]`, write feature `n`. */
  method ForwardInput(l: Layer, n: u32, row: u32, i: u32, trace: seq<Access>) returns (trace': seq<Access>)
    ensures trace' == trace + [ReadInput(i), ReadWeight(row + i), WriteFeature(n)]
    ensures WeightReads(trace') == WeightReads(trace) + [row + i]
    ensures FeatureWrites(trace') == FeatureWrites(trace) + {n as nat}
  {
    WeightReadsSnoc(trace, ReadInput(i));
    FeatureWritesSnoc(trace, ReadInput(i));
    trace' := trace + [ReadInput(i)];
    WeightReadsSnoc(trace', ReadWeight(row + i));
    FeatureWritesSnoc(trace', ReadWeight(row + i));
    trace' := trace' + [ReadWeight(row + i)];
    WeightReadsSnoc(trace', WriteFeature(n));
    FeatureWritesSnoc(trace', WriteFeature(n));
    trace' := trace' + [WriteFeature(n)];
  }

  /** Without wrap-around, the weight row of output `n` starts at `n * numInputs`. */
  lemma RowStart(numInputs: u32, numOutputs: u32, n: nat)
    requires numInputs * numOutputs < Modulus && n < numOutputs
    ensures Mul(numInputs, n) == Times(n, numInputs)
  {
    TimesIsProduct(n, numInputs);
    MulMonotone(n, numOutputs, numInputs);
  }

  /** Weight `i` of row `n` lies below `numInputs * numOutputs`. */
  lemma WeightInRow(numInputs: u32, numOutputs: u32, n: nat, i: nat)
    requires numInputs * numOutputs < Modulus && n < numOutputs && i < numInputs
    ensures Mul(numInputs, n) + i < (numInputs * numOutputs) % Modulus
  {
    RowStart(numInputs, numOutputs, n);
    TimesIsProduct(n, numInputs);
    MulSucc(n, numInputs);
    MulMonotone(n + 1, numOutputs, numInputs);
  }

  /**
   `SigmoidLayer::forward`: for each output `i`, read `inputs[i]` and write
   the activation to `m_features[i]` and its derivative to `m_derivates[i]`.
   Every access is in bounds, and every feature and derivative is written.
   */
  method SigmoidForward(l: Layer) returns (trace: seq<Access>)
    requires l.Sigmoid?
    requires l == NewSigmoidLayer(l.numInputs)
    ensures AllInBounds(l, trace)
    ensures WritesFeaturesBelow(trace, l.numOutputs)
    ensures forall i :: 0 <= i < l.derivates ==> WriteDerivate(i) in trace
  {
    trace := [];
    var i: u32 := 0;
    while i < l.numOutputs
      invariant i <= l.numOutputs
      invariant AllInBounds(l, trace)
      invariant WritesFeaturesBelow(trace, i)
      invariant forall m :: 0 <= m < i ==> WriteDerivate(m) in trace
    {
      FeatureWritesSnoc(trace, ReadInput(i));
      trace := trace + [ReadInput(i)];
      FeatureWritesSnoc(trace, WriteFeature(i));
      trace := trace + [WriteFeature(i)];
      FeatureWritesSnoc(trace, WriteDerivate(i));
      trace := trace + [WriteDerivate(i)];
      i := i + 1;
    }
  }
}
