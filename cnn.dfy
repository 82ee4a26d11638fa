/**
 * The dense network of include/cnn.h and src/cnn.c: the tagged layer
 * union, the growable layer array of nn_t, and the operations that build,
 * run and tear it down. Every method is specified against the value
 * functions of CnnSpec and MatrixSpec.
 */
module Cnn {
  import opened MatrixSpec
  import opened Faults
  import opened Mat
  import opened CnnSpec

  /**
   * layer_t (include/cnn.h:29-36): the tag is the constructor, so only
   * the payload matching the kind exists. A dense layer owns its weights
   * and its 1 × ws.cols activation buffer and carries its activation tag;
   * an input layer only borrows a matrix.
   */
  datatype Layer =
    | Dense(ws: Mat2D, bias: real, a: Mat2D, act: ActFun)
    | Input(input: Mat2D?)

  /** What the forward pass reads from a layer: everything but the activation buffer. */
  ghost function ParamsOf(layer: Layer): (p: LayerParams)
    reads if layer.Dense? then {layer.ws, layer.ws.elems} else {}
    requires layer.Dense? ==> layer.ws.Valid()
    ensures p.DenseParams? <==> layer.Dense?
    ensures layer.Dense? ==> p.ws == layer.ws.Value() && p.bias == layer.bias && p.act == layer.act
  {
    match layer
    case Dense(ws, bias, _, act) => DenseParams(ws.Value(), bias, act)
    case Input(_) => InputParams
  }

  /** A dense layer's matrices exist, are owned by `repr`, and a is 1 × ws.cols. */
  ghost predicate DenseValid(layer: Layer, repr: set<object>)
    requires layer.Dense?
    reads layer.ws, layer.a
  {
    layer.ws.Valid() && layer.a.Valid() &&
    layer.ws.elems in repr && layer.a.elems in repr &&
    layer.a.rows == 1 && layer.a.cols == layer.ws.cols
  }

  /**
   * activate_Mat2D (src/cnn.c:21-28): every cell replaced by its
   * activation, in place, row by row. A SOFTMAX tag aborts at the first
   * cell, before anything is written; an empty matrix has no cell to visit.
   */
  method ActivateMat2D(m: Mat2D, act: ActFun, lib: MathLib) returns (r: Outcome)
    requires m.Valid()
    modifies m.elems
    ensures m.Valid()
    ensures r == Pass <==> Activated(lib, old(m.Value()), act).Success?
    ensures r == Pass ==> m.Value() == Activated(lib, old(m.Value()), act).value
    ensures r != Pass ==> r == Fail(UnsupportedActivation) && m.Value() == old(m.Value())
  {
    ghost var start := m.Value();
    ghost var done := 0;  // cells finished so far, in buffer order
    for i := 0 to m.rows
      invariant done == i * m.cols && done <= m.elems.Length == |start.elems|
      invariant act == SOFTMAX ==> done == 0
      invariant forall p :: 0 <= p < done ==> Activate(lib, start.elems[p], act) == Success(m.elems[p])
      invariant forall p :: done <= p < m.elems.Length ==> m.elems[p] == start.elems[p]
    {
      var o := ActivateRow(m, i, act, lib);
      if o.Fail? {
        assert m.elems[..] == start.elems;
        return o;
      }
      done := done + m.cols;
    }
    assert done == |start.elems|;
    assert m.elems[..] == Activated(lib, start, act).value.elems;
    return Pass;
  }

  /**
   * One pass of the inner loop of activate_Mat2D (src/cnn.c:23-26), the
   * unit that the OpenMP outer loop hands to a thread: the cells of row i
   * activated in place from left to right; every other cell is left
   * alone. A SOFTMAX tag aborts at the row's first cell.
   */
  method ActivateRow(m: Mat2D, i: nat, act: ActFun, lib: MathLib) returns (r: Outcome)
    requires m.Valid() && i < m.rows
    modifies m.elems
    ensures i * m.cols + m.cols <= m.elems.Length
    ensures r == Pass <==> act != SOFTMAX || m.cols == 0
    ensures r != Pass ==> r == Fail(UnsupportedActivation) && m.elems[..] == old(m.elems[..])
    ensures forall p :: 0 <= p < m.elems.Length && !(i * m.cols <= p < i * m.cols + m.cols) ==>
      m.elems[p] == old(m.elems[p])
    ensures r == Pass ==> forall p :: i * m.cols <= p < i * m.cols + m.cols ==>
      Activate(lib, old(m.elems[p]), act) == Success(m.elems[p])
  {
    RowInBounds(m.rows, m.cols, i);
    var lo := Index(m.cols, i, 0);  // MAT2D_GET(m, i, j) is buffer position lo + j
    ghost var start := m.elems[..];
    for j := 0 to m.cols
      invariant act == SOFTMAX ==> j == 0
      invariant forall p :: 0 <= p < lo ==> m.elems[p] == start[p]
      invariant forall p :: lo + j <= p < m.elems.Length ==> m.elems[p] == start[p]
      invariant forall p :: lo <= p < lo + j ==> Activate(lib, start[p], act) == Success(m.elems[p])
    {
      r := ActivateCell(m, lo + j, act, lib);
      if r.Fail? {
        return;
      }
    }
    return Pass;
  }

  /** The assignment in the body of activate_Mat2D (src/cnn.c:25): one cell activated in place. */
  method ActivateCell(m: Mat2D, k: nat, act: ActFun, lib: MathLib) returns (r: Outcome)
    requires m.Valid() && k < m.elems.Length
    modifies m.elems
    ensures r == Pass <==> act != SOFTMAX
    ensures r == Pass ==> Activate(lib, old(m.elems[k]), act) == Success(m.elems[k])
    ensures r != Pass ==> r == Fail(UnsupportedActivation)
    ensures forall p :: 0 <= p < m.elems.Length && (p != k || r != Pass) ==> m.elems[p] == old(m.elems[p])
  {
    var v := Activate(lib, m.elems[k], act);
    if v.Failure? {
      return Fail(v.error);
    }
    m.elems[k] := v.value;
    return Pass;
  }

  /**
   * The body of the DENSE case of nn_forward (src/cnn.c:95-99): a fresh
   * matrix m · ws, checked to be one row, plus the bias in every cell,
   * activated in place. Nothing that existed before is changed.
   */
  method DenseForward(m: Mat2D, ws: Mat2D, bias: real, act: ActFun, lib: MathLib) returns (r: Result<Mat2D, Fault>)
    requires m.Valid() && ws.Valid()
    ensures r.Success? <==> DenseStep(lib, m.Value(), ws.Value(), bias, act).Success?
    ensures r.Success? ==> fresh(r.value) && fresh(r.value.elems) && r.value.Valid()
    ensures r.Success? ==> r.value.Value() == DenseStep(lib, m.Value(), ws.Value(), bias, act).value
    ensures r.Failure? ==> r.error == DenseStep(lib, m.Value(), ws.Value(), bias, act).error
  {
    var z := MulNew(m, ws);
    if z.Failure? {
      return Failure(z.error);
    }
    var a := z.value;
    if a.rows != 1 {
      return Failure(NotOneRow);
    }
    a.AddScalar(bias);
    var o := ActivateMat2D(a, act, lib);
    if o.Fail? {
      return Failure(o.fault);
    }
    return Success(a);
  }

  /**
   * new_dense_layer (src/cnn.c:41-54): fresh input_size × output_size
   * weights and a fresh 1 × output_size activation buffer. The weights'
   * contents and the bias are random in the source; here the contents are
   * whatever the fresh buffer holds and the bias is the caller's.
   */
  method NewDenseLayer(inputSize: nat, outputSize: nat, act: ActFun, bias: real) returns (layer: Layer)
    ensures layer.Dense? && layer.act == act && layer.bias == bias
    ensures fresh(layer.ws) && fresh(layer.ws.elems) && fresh(layer.a) && fresh(layer.a.elems)
    ensures layer.ws.Valid() && layer.ws.rows == inputSize && layer.ws.cols == outputSize
    ensures layer.a.Valid() && layer.a.rows == 1 && layer.a.cols == outputSize
  {
    var a := new Mat2D(1, outputSize);
    var ws := new Mat2D(inputSize, outputSize);
    return Dense(ws, bias, a, act);
  }

  /**
   * The growth step of add_dense_layer: `capacity *= 1.5` truncated back
   * to size_t, that is the largest c with 2·c <= 3·capacity. Growing
   * never shrinks, and from 2 upwards it makes room for at least one more
   * layer.
   */
  function Grown(capacity: nat): (c: nat)
    ensures 2 * c <= 3 * capacity < 2 * c + 2
    ensures c >= capacity
    ensures capacity >= 2 ==> c > capacity
    ensures capacity < 2 ==> c == capacity
  {
    capacity * 3 / 2
  }

  /** nn_t (include/cnn.h:38-42): a layer count, a capacity and the layer array. */
  class Network {
    var layerCount: nat
    var capacity: nat
    var layers: array<Layer>
    /** The network, its layer array and every dense layer's matrices and buffers. */
    ghost var Repr: set<object>

    /**
     * layer_count <= capacity, the array holds capacity slots (never fewer
     * than the 10 new_nn starts with), and every used slot's dense layer is
     * owned and well-shaped.
     */
    ghost predicate Valid()
      reads this, Repr
    {
      this in Repr && layers in Repr &&
      layers.Length == capacity && layerCount <= capacity && 10 <= capacity &&
      forall l :: 0 <= l < layerCount && layers[l].Dense? ==>
        layers[l].ws in Repr && layers[l].a in Repr && DenseValid(layers[l], Repr)
    }

    /** The parameters of the first n layers, in order. */
    ghost function ParamsUpTo(n: nat): (ps: seq<LayerParams>)
      reads this, Repr
      requires Valid() && n <= layerCount
      ensures |ps| == n
      ensures forall l :: 0 <= l < n ==> ps[l] == ParamsOf(layers[l])
    {
      if n == 0 then [] else ParamsUpTo(n - 1) + [ParamsOf(layers[n - 1])]
    }

    /** The parameters of every layer: what nn_forward computes from. */
    ghost function Params(): (ps: seq<LayerParams>)
      reads this, Repr
      requires Valid()
      ensures |ps| == layerCount
      ensures forall l :: 0 <= l < layerCount ==> ps[l] == ParamsOf(layers[l])
    {
      ParamsUpTo(layerCount)
    }

    /** new_nn (src/cnn.c:30-39): no layers and room for 10. */
    constructor ()
      ensures Valid() && fresh(Repr)
      ensures layerCount == 0 && capacity == 10 && Params() == []
    {
      layerCount := 0;
      capacity := 10;
      layers := new Layer[10](_ => Input(null));
      Repr := {this, layers};
    }

    /**
     * The growth step of add_dense_layer (src/cnn.c:80-84): a full array is
     * replaced by one of Grown(capacity) slots holding the same layers.
     * Afterwards there is room for one more layer.
     */
    method Reserve()
      requires Valid()
      modifies this
      ensures Valid() && old(Repr) <= Repr && fresh(Repr - old(Repr))
      ensures layerCount == old(layerCount) && layerCount < capacity
      ensures capacity == if old(capacity) <= old(layerCount) then Grown(old(capacity)) else old(capacity)
      ensures layers == old(layers) || fresh(layers)
      ensures forall l :: 0 <= l < layerCount ==> layers[l] == old(layers[l])
    {
      if capacity <= layerCount {
        var grown := new Layer[Grown(capacity)](_ => Input(null));
        forall k | 0 <= k < layers.Length {
          grown[k] := layers[k];
        }
        capacity := Grown(capacity);
        layers := grown;
        Repr := Repr + {grown};
      }
    }

    /**
     * The store of add_dense_layer (src/cnn.c:86): the layer goes into the
     * slot at the count, and the count grows by one.
     */
    method Append(layer: Layer)
      requires Valid() && layerCount < capacity
      requires layer.Dense? && layer.ws.Valid() && layer.a.Valid()
      requires layer.a.rows == 1 && layer.a.cols == layer.ws.cols
      modifies this, layers
      ensures Valid() && Repr == old(Repr) + {layer.ws, layer.ws.elems, layer.a, layer.a.elems}
      ensures layerCount == old(layerCount) + 1 && capacity == old(capacity) && layers == old(layers)
      ensures layers[old(layerCount)] == layer
      ensures forall l :: 0 <= l < old(layerCount) ==> layers[l] == old(layers[l])
      ensures Params() == old(Params()) + [ParamsOf(layer)]
    {
      ghost var ps := Params();
      layers[layerCount] := layer;
      layerCount := layerCount + 1;
      Repr := Repr + {layer.ws, layer.ws.elems, layer.a, layer.a.elems};
      assert forall l :: 0 <= l < layerCount ==> Params()[l] == (ps + [ParamsOf(layer)])[l];
    }

    /**
     * add_dense_layer (src/cnn.c:77-87): a new input_size × output_size
     * dense layer goes into the slot at the old count, after the array has
     * grown if it was full; every earlier layer is kept.
     */
    method AddDenseLayer(inputSize: nat, outputSize: nat, act: ActFun, bias: real)
      requires Valid()
      modifies this, layers
      ensures Valid() && old(Repr) <= Repr && fresh(Repr - old(Repr))
      ensures layerCount == old(layerCount) + 1
      ensures capacity == if old(capacity) <= old(layerCount) then Grown(old(capacity)) else old(capacity)
      ensures forall l :: 0 <= l < old(layerCount) ==> layers[l] == old(layers[l])
      ensures var layer := layers[old(layerCount)];
        layer.Dense? && layer.act == act && layer.bias == bias && fresh(layer.ws) && fresh(layer.a) &&
        layer.ws.rows == inputSize && layer.ws.cols == outputSize &&
        layer.a.rows == 1 && layer.a.cols == outputSize
    {
      var layer := NewDenseLayer(inputSize, outputSize, act, bias);
      ghost var parts: set<object> := {layer.ws, layer.ws.elems, layer.a, layer.a.elems};
      assert fresh(parts);
      Reserve();
      ghost var grownRepr := Repr;
      Append(layer);
      assert Repr == grownRepr + parts;
    }

    /** The first n layers are dense and hold the activations acts. */
    ghost predicate Ran(n: nat, acts: seq<Matrix>)
      reads this, Repr
      requires Valid()
    {
      n <= layerCount && |acts| == n &&
      forall k :: 0 <= k < n ==> layers[k].Dense? && layers[k].a.Value() == acts[k]
    }

    /**
     * Points layer l's activation buffer at a (src/cnn.c:95), after the
     * layers before it have run. The parameters the forward pass reads are
     * unchanged.
     */
    method SetActivation(l: nat, a: Mat2D, ghost acts: seq<Matrix>)
      requires Valid() && l < layerCount && layers[l].Dense? && Ran(l, acts)
      requires a.Valid() && a.rows == 1 && a.cols == layers[l].ws.cols
      modifies this, layers
      ensures Valid() && Repr == old(Repr) + {a, a.elems}
      ensures layerCount == old(layerCount) && capacity == old(capacity) && layers == old(layers)
      ensures layers[l] == old(layers[l]).(a := a)
      ensures Params() == old(Params())
      ensures Ran(l + 1, acts + [a.Value()])
    {
      ghost var ps := Params();
      layers[l] := layers[l].(a := a);
      Repr := Repr + {a, a.elems};
      assert forall k :: 0 <= k < layerCount ==> Params()[k] == ps[k];
    }

    /**
     * One iteration of nn_forward (src/cnn.c:93-104), fed m after the
     * layers before l have produced acts: a dense layer gets a fresh
     * activation buffer holding its step's result; any other kind aborts.
     */
    method ForwardLayer(l: nat, m: Mat2D, lib: MathLib, ghost acts: seq<Matrix>) returns (r: Result<Mat2D, Fault>)
      requires Valid() && l < layerCount && Ran(l, acts) && m.Valid()
      modifies this, layers
      ensures Valid() && old(Repr) <= Repr && fresh(Repr - old(Repr)) && Params() == old(Params())
      ensures layerCount == old(layerCount) && capacity == old(capacity) && layers == old(layers)
      ensures r.Success? <==> Step(lib, old(m.Value()), old(Params())[l]).Success?
      ensures r.Failure? ==> r.error == Step(lib, old(m.Value()), old(Params())[l]).error
      ensures r.Success? ==>
        r.value.Valid() && r.value.Value() == Step(lib, old(m.Value()), old(Params())[l]).value &&
        Ran(l + 1, acts + [r.value.Value()])
    {
      var layer := layers[l];
      if layer.Input? {
        return Failure(UnsupportedLayerKind);
      }
      var step := DenseForward(m, layer.ws, layer.bias, layer.act, lib);
      if step.Failure? {
        return Failure(step.error);
      }
      SetActivation(l, step.value, acts);
      return step;
    }

    /**
     * nn_forward (src/cnn.c:89-106): each dense layer in turn sets its
     * activation buffer to act(m · ws + bias), and that buffer becomes the
     * next layer's m. An abort leaves the layers already run updated.
     */
    method Forward(input: Mat2D, lib: MathLib) returns (r: Outcome)
      requires Valid() && input.Valid()
      modifies this, layers
      ensures Valid() && old(Repr) <= Repr && fresh(Repr - old(Repr))
      ensures layerCount == old(layerCount) && capacity == old(capacity) && layers == old(layers)
      ensures Params() == old(Params())
      ensures r == Pass <==> CnnSpec.Forward(lib, old(input.Value()), old(Params())).Success?
      ensures r == Pass ==> Ran(layerCount, CnnSpec.Forward(lib, old(input.Value()), old(Params())).value)
      ensures r != Pass ==> r == Fail(CnnSpec.Forward(lib, old(input.Value()), old(Params())).error)
    {
      ghost var ps := Params();
      ghost var x := input.Value();
      ghost var acts: seq<Matrix> := [];
      var m := input;
      ForwardStart(lib, x, ps);
      for l := 0 to layerCount
        invariant Valid() && old(Repr) <= Repr && fresh(Repr - old(Repr))
        invariant layerCount == old(layerCount) && capacity == old(capacity) && layers == old(layers)
        invariant Params() == ps
        invariant Ran(l, acts) && m.Valid()
        invariant CnnSpec.Forward(lib, x, ps) == Prepend(acts, CnnSpec.Forward(lib, m.Value(), ps[l..]))
      {
        ForwardAdvance(lib, x, ps, acts, l, m.Value());
        ghost var before := Repr;
        var step := ForwardLayer(l, m, lib, acts);
        forall o | o in Repr && o !in old(Repr)
          ensures fresh(o)
        {
          if o !in before {
            assert o in Repr - before;
          }
        }
        if step.Failure? {
          return Fail(step.error);
        }
        m := step.value;
        acts := acts + [m.Value()];
      }
      ForwardAdvance(lib, x, ps, acts, layerCount, m.Value());
      return Pass;
    }

    /**
     * nn_destroy (src/cnn.c:61-75): destroys each dense layer's a and then
     * its ws, aborting at the first layer of any other kind; then frees the
     * array and zeroes the count and the capacity.
     */
    method Destroy() returns (r: Outcome)
      requires Valid()
      modifies Repr
      ensures r == Pass <==> forall l :: 0 <= l < old(layerCount) ==> old(layers[l]).Dense?
      ensures r != Pass ==> r == Fail(UnsupportedLayerKind)
      ensures r == Pass ==> layerCount == 0 && capacity == 0 && layers.Length == 0
      ensures r == Pass ==> forall l :: 0 <= l < old(layerCount) ==>
        var layer := old(layers[l]);
        layer.a.elems == null && layer.a.rows == 0 && layer.a.cols == 0 &&
        layer.ws.elems == null && layer.ws.rows == 0 && layer.ws.cols == 0
    {
      for l := 0 to layerCount
        invariant layers == old(layers) && layerCount == old(layerCount)
        invariant forall k :: 0 <= k < layerCount ==> layers[k] == old(layers[k])
        invariant forall k :: 0 <= k < l ==>
          layers[k].Dense? &&
          layers[k].a.elems == null && layers[k].a.rows == 0 && layers[k].a.cols == 0 &&
          layers[k].ws.elems == null && layers[k].ws.rows == 0 && layers[k].ws.cols == 0
      {
        var layer := layers[l];
        if layer.Input? {
          return Fail(UnsupportedLayerKind);
        }
        layer.a.Destroy();
        layer.ws.Destroy();
      }
      layers := new Layer[0];
      capacity := 0;
      layerCount := 0;
      return Pass;
    }
  }
}
