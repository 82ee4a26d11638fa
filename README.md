# A verified model of the cnn matrix engine, dense network and IDX readers

The repository is a small C engine for feed-forward neural networks. This
project models its sequential core in Dafny:

- **The matrix engine** (`include/mat.h`, `src/mat.c`). A `Mat2D` is a
  shape plus a row-major heap buffer, read through `MAT2D_GET`. The model
  has two levels. `MatrixSpec` is the value level: shape, buffer as a
  sequence of exact reals, the index map, product, scalar add and cellwise
  sum. `Mat` is the class level: `Mat2D` with its `array?<real>` buffer,
  and one method per C function that overwrites the buffer in place. Each
  method is proved against the value functions.
- **The dense network** (`include/cnn.h`, `src/cnn.c`). `CnnSpec` gives
  the meaning of one dense step `a = act(m · ws + bias)` and of the whole
  forward pass. `Cnn` has the tagged layer union as a datatype and `nn_t`
  as a class whose layer array grows by half when full. It also has the
  methods `new_nn`, `add_dense_layer`, `nn_forward` and `nn_destroy`,
  and `activate_Mat2D`.
- **The IDX helpers** of `src/examples/mnist.c` (module `Mnist`). These
  are `reverse_int`, the header checks and the `from`/`to` record range of
  `read_labels` and `read_imgs`, and the loops that fill the one-hot label
  matrix and the image matrix. The file is an input byte sequence.

A C `assert` that aborts the program becomes an error value
(`Faults.Outcome`, `Faults.Result`, `Mnist.IdxFault`), not a precondition,
so each assert of the modelled code is an error case of the model. Two
error values stand for behaviour that C leaves undefined rather than
aborting: a file that ends early (`ShortRead`) and a label byte that makes
`read_labels` write past its buffer (`LabelPastBuffer`). Matrix cells are
exact `real`s. The repository's tests use small integers, which `double`
represents exactly, so their expected values are proved as lemmas.

The readers `read_labels` and `read_imgs` are modelled as written
(`Mnist.LabelRecords`, `Mnist.ImageRecords`, `Mnist.ParseLabels`,
`Mnist.ParseImages`, and the methods `Mnist.ReadLabels` and
`Mnist.ReadImages`). The corrections listed under "Findings" are
separate members (`Mnist.IntendedLabelRecords`, `Mnist.IntendedImageRecords`,
`Mnist.IntendedParseLabels`, `Mnist.IntendedParseImages`), and lemmas state
exactly where the two versions differ.

In the network code, `activate` has no SOFTMAX case, so a SOFTMAX layer
reaches the `unreachable` assert. `nn_forward` feeds a one-row matrix `m`
through `m · ws`, and each layer adds one scalar bias to every cell.

The code also disagrees with itself in two places, and both are resolved
towards the code that runs:

- `mul_Mat2D` is declared and defined with an `out` parameter, but
  `src/cnn.c:95` and `src/tests/mat_tests.c:18` call a two-argument form
  that returns a fresh matrix. `Mat.Mul` is the three-argument function.
  `Mat.MulNew` is the two-argument form built on it.
- `DenseLayer` in `include/cnn.h:19-23` has no `act` field, but
  `src/cnn.c:49` and `src/cnn.c:99` use `dl.act`. The dense layer carries
  its activation tag (`Cnn.Layer.Dense`).

## Model

| member | source | states |
|---|---|---|
| MatrixSpec.Index | include/mat.h:5 | MAT2D_GET(m, i, j) reads buffer position i·cols + j; the lemmas below state what that map guarantees |
| MatrixSpec.IndexInBounds | include/mat.h:5 | every in-range cell (i, j) reads a buffer position below rows·cols |
| MatrixSpec.RowInBounds | include/mat.h:5 | row i of an in-range matrix occupies positions i·cols up to i·cols + cols, all inside the buffer |
| MatrixSpec.IndexDivMod | include/mat.h:5 | the row and column are recovered from the position as position / cols and position % cols |
| MatrixSpec.IndexInjective | include/mat.h:5 | distinct in-range cells occupy distinct buffer positions |
| MatrixSpec.IndexSurjective | include/mat.h:5 | every buffer position k < rows·cols is the cell (k / cols, k % cols), which is in range |
| MatrixSpec.Get | include/mat.h:5 | the cell (i, j) of an in-range pair is the buffer element at Index(cols, i, j) |
| MatrixSpec.CellwiseEqual | include/mat.h:13-17 | two matrices of one shape that agree on every cell are the same matrix |
| MatrixSpec.Filled | src/mat.c:53-55 | the constant matrix has the requested shape |
| MatrixSpec.FilledGet | src/mat.c:53-55 | every cell of the constant matrix holds the constant |
| MatrixSpec.Dot | src/mat.c:34-37 | the inner loop's `sum` after n steps: Σ_{k<n} a[i][k]·b[k][j], accumulated from k = 0 |
| MatrixSpec.DotOverSum | src/mat.c:34-37 | a dot product with a column that is the sum of two columns is the sum of the two dot products |
| MatrixSpec.Product | src/mat.c:27-41 | the product of an r × n and an n × c matrix is r × c |
| MatrixSpec.ProductGet | src/mat.c:32-40 | cell (i, j) of a · b is the sum over k of a[i][k]·b[k][j], accumulated from k = 0 |
| MatrixSpec.ProductUnique | src/mat.c:32-40 | any matrix of the product's shape whose cells are those dot products is the product |
| MatrixSpec.DotTwo | src/mat.c:35-37 | a length-two dot product is x0·y0 + x1·y1 of the four cells it reads |
| MatrixSpec.ProductTwoByTwo | src/mat.c:27-41 | the product of two 2 × 2 matrices, written out as its four buffer cells |
| MatrixSpec.ProductExample | src/tests/mat_tests.c:8-24 | [[3,2],[1,4]] · [[5,0],[6,7]] is [[27,14],[29,28]] |
| MatrixSpec.PlusScalar | src/mat.c:58-65 | adding a scalar keeps the shape |
| MatrixSpec.PlusScalarGet | src/mat.c:58-65 | adding s makes every cell exactly s larger |
| MatrixSpec.PlusScalarTwice | src/mat.c:58-65 | adding s then t is adding s + t, and adding 0 changes nothing |
| MatrixSpec.Plus | src/mat.c:68-77 | the cellwise sum of two same-shaped matrices keeps their shape |
| MatrixSpec.PlusGet | src/mat.c:68-77 | each cell of the sum is the sum of the two cells |
| MatrixSpec.PlusZero | src/mat.c:68-77 | adding the zero matrix changes nothing |
| MatrixSpec.ProductDistributes | src/mat.c:27-41 | multiplication distributes over the cellwise sum of sum_Mat2D: a · (b + c) = a · b + a · c |
| Mat.Mat2D.Value | include/mat.h:13-17 | the struct's value is its shape and its buffer contents |
| Mat.Mat2D.constructor | src/mat.c:8-18 | new_Mat2D yields a rows × cols matrix over a fresh buffer of exactly rows·cols cells |
| Mat.Mat2D.Destroy | src/mat.c:20-25 | the buffer is dropped (null) and rows and cols become 0 |
| Mat.Mat2D.ZeroInit | src/mat.c:53-55 | every cell becomes 0 and the shape is unchanged |
| Mat.Mat2D.AddScalar | src/mat.c:58-65 | the new value is the old one with s added to every cell; nothing else changes |
| Mat.Mat2D.Sum | src/mat.c:68-77 | passes exactly when the shapes are equal; then m1 becomes old m1 + m2 cellwise, otherwise it aborts with m1 unchanged |
| Mat.Mul | src/mat.c:27-41 | passes exactly when m1.cols == m2.rows and out is m1.rows × m2.cols; then out holds m1 · m2, otherwise it aborts with out unchanged; the inputs are not modified |
| Mat.MulRow | src/mat.c:34-40 | row i of out becomes row i of m1 · m2 and every other cell of out is unchanged |
| Mat.RowTimesColumn | src/mat.c:35-37 | the inner loop's sum is the dot product of row i of m1 and column j of m2 |
| Mat.MulNew | src/cnn.c:95 | the two-argument multiply succeeds exactly when m1.cols == m2.rows, with a fresh matrix holding m1 · m2; otherwise it aborts |
| CnnSpec.Sigmoid | src/cnn.c:8-10 | 1 / (1 + exp(−x)) lies strictly between 0 and 1, because exp is positive |
| CnnSpec.Activate | src/cnn.c:12-19 | activate aborts exactly on the SOFTMAX tag, with UnsupportedActivation, and no other tag fails |
| CnnSpec.ReluIsMax | src/cnn.c:15 | RELU is max(0, x): never negative, at least x, positive exactly when x is, and idempotent |
| CnnSpec.Activated | src/cnn.c:21-28 | a successful activation keeps the shape, and the only fault is UnsupportedActivation |
| CnnSpec.ActivatedCells | src/cnn.c:21-28 | activating a matrix keeps its shape and activates every cell; it aborts exactly for SOFTMAX on a matrix with a cell |
| CnnSpec.DenseStep | src/cnn.c:94-100 | a dense step gets through exactly when m.cols == ws.rows, m is one row, and the tag is not SOFTMAX with an output to activate; it then yields a 1 × ws.cols row; otherwise the fault is DimensionMismatch, NotOneRow or UnsupportedActivation, checked in that order |
| CnnSpec.DenseStepCell | src/cnn.c:94-100 | a successful step needs m to be one row with m.cols == ws.rows, and its cell j is act(Σ_k m[0][k]·ws[k][j] + bias) |
| CnnSpec.Step | src/cnn.c:93-104 | a layer of any kind other than dense aborts with UnsupportedLayerKind; a successful step is a dense layer's 1 × ws.cols row |
| CnnSpec.Forward | src/cnn.c:89-106 | a successful forward pass yields one activation matrix per layer |
| CnnSpec.Feasible | src/cnn.c:89-106 | a chain on which the forward pass gets through has only dense layers; ForwardFeasible states the rest |
| CnnSpec.ForwardAdvance | src/cnn.c:89-106 | one iteration of the layer loop either aborts the whole pass with that layer's error or appends its activations and feeds them to the next layer |
| CnnSpec.ForwardStart | src/cnn.c:89-92 | the starting point of the layer loop's invariant: with no layers run and m = input, the pass still ahead is the whole pass |
| CnnSpec.ForwardFeasible | src/cnn.c:89-106 | the forward pass succeeds exactly when every layer is dense, the input is one row of the first layer's input size, adjacent sizes chain and no SOFTMAX layer has an output; then each layer yields a 1 × ws.cols row |
| CnnSpec.ForwardLayers | src/cnn.c:94-100 | each layer's activations are its dense step applied to the previous layer's activations (the input for the first) |
| CnnSpec.ReluForwardNonNegative | src/cnn.c:15 | a network of RELU layers never produces a negative activation |
| CnnSpec.ForwardTest | src/tests/nn_tests.c:23-52 | the two-layer RELU test network (`CnnSpec.TestNet`: 2 → 2 with bias −3, then 2 → 1 with bias 0, the layers nn_tests.c:23-32 builds) maps [0,1] to output 0 and [1,3] to output 1, with the hidden rows [0,0] and [0,1] |
| CnnSpec.ForwardTestRun | src/tests/nn_tests.c:23-43 | for any input row of the test network, the hidden row and output are the RELU expressions of its weights |
| CnnSpec.HiddenStep | src/tests/nn_tests.c:23-29 | the first test layer maps [x0,x1] to [relu(x1 − 3), relu(x0 + x1 − 3)] |
| CnnSpec.OutputStep | src/tests/nn_tests.c:24-32 | the second test layer maps [h0,h1] to [relu(h1 − h0)] |
| CnnSpec.TwoLayers | src/cnn.c:89-106 | the forward pass of the test network is its two dense steps in sequence |
| CnnSpec.TestStep | src/cnn.c:94-100 | a RELU dense step whose every cell equals the wanted value returns exactly the wanted row |
| Cnn.ActivateMat2D | src/cnn.c:21-28 | passes exactly when the value-level activation succeeds and then holds its result; a SOFTMAX abort leaves the matrix unchanged |
| Cnn.ActivateRow | src/cnn.c:23-26 | the cells of row i are activated in place and every other cell is unchanged |
| Cnn.ActivateCell | src/cnn.c:25 | one cell is replaced by its activation, or the tag aborts with nothing written |
| Cnn.DenseForward | src/cnn.c:95-99 | the dense case of nn_forward succeeds exactly when the value-level dense step does, with a fresh matrix holding its result and the same error otherwise |
| Cnn.NewDenseLayer | src/cnn.c:41-54 | a dense layer with fresh input_size × output_size weights and a fresh 1 × output_size activation buffer |
| Cnn.ParamsOf | include/cnn.h:29-36 | the forward pass reads a dense layer's weights, bias and tag and nothing from any other kind of layer |
| Cnn.DenseValid | include/cnn.h:19-23 | a dense layer's weights and activation buffer exist, and the buffer is 1 × ws.cols |
| Cnn.Grown | src/cnn.c:80-81 | `capacity *= 1.5` truncated to size_t is the largest c with 2·c ≤ 3·capacity; it never shrinks, and strictly grows from capacity 2 upwards |
| Cnn.Network.Valid | include/cnn.h:38-42 | layer_count ≤ capacity, the array has capacity slots, and every used dense slot is owned and well-shaped |
| Cnn.Network.ParamsUpTo | include/cnn.h:38-42 | lists the parameters of the first n layers in order |
| Cnn.Network.Params | include/cnn.h:38-42 | lists the parameters of every layer in order, one per counted layer |
| Cnn.Network.constructor | src/cnn.c:30-39 | new_nn has no layers and room for 10 |
| Cnn.Network.Reserve | src/cnn.c:80-84 | a full array is replaced by one of floor(1.5·capacity) slots holding the same layers, after which there is room for one more layer |
| Cnn.Network.Append | src/cnn.c:86 | the layer goes into the slot at the old count, the count grows by one, and the parameter list gains exactly that layer |
| Cnn.Network.AddDenseLayer | src/cnn.c:77-87 | the count grows by one, the capacity grows by half when it was full, earlier layers are unchanged and the new slot holds a well-shaped dense layer |
| Cnn.Network.SetActivation | src/cnn.c:95 | layer l's activation buffer becomes a while the parameters the forward pass reads stay unchanged |
| Cnn.Network.ForwardLayer | src/cnn.c:93-104 | one loop iteration computes that layer's step, stores its activations in a newly allocated buffer and aborts with the step's error on any other layer kind |
| Cnn.Network.Forward | src/cnn.c:89-106 | nn_forward passes exactly when the value-level forward pass succeeds, leaving every layer's buffer holding its activations, and otherwise aborts with its error; the parameters are not changed, and every object it adds to the network's footprint is newly allocated, so the caller's input stays outside it |
| Cnn.Network.Destroy | src/cnn.c:61-75 | passes exactly when every layer is dense, and then every layer's matrices are destroyed and the count and capacity are 0 |
| Mnist.ByteOf | src/examples/mnist.c:26-29 | byte k of a word is (i >> 8k) & 0xFF, that is i / 256^k % 256 |
| Mnist.FromBytes | src/examples/mnist.c:31 | the word assembled from four bytes has exactly those bytes |
| Mnist.FromByteOf | src/examples/mnist.c:26-29 | a word is determined by its four bytes |
| Mnist.ReverseInt | src/examples/mnist.c:24-32 | the input's byte 0 becomes the output's byte 3, byte 1 byte 2, byte 2 byte 1 and byte 3 byte 0 |
| Mnist.ReverseFromBytes | src/examples/mnist.c:24-32 | swapping the word built from b0..b3 builds it from b3..b0 |
| Mnist.ReverseIntInvolution | src/examples/mnist.c:24-32 | swapping twice gives back the word |
| Mnist.Int32 | src/examples/mnist.c:31 | the `(int)` cast of a 32-bit pattern is in the int range and is negative exactly when the top bit is set |
| Mnist.Field | src/examples/mnist.c:46-51 | a header field is a C int, negative exactly when its first byte has the top bit set |
| Mnist.SwappedReadIsField | src/examples/mnist.c:50-51 | a header int read on a little-endian host and swapped is the big-endian field of the file |
| Mnist.IntBytes | src/examples/mnist.c:50-51 | a header field is four bytes |
| Mnist.FieldRoundTrip | src/examples/mnist.c:50-51 | a non-negative int written as a big-endian field reads back as itself |
| Mnist.MagicNumbers | src/examples/mnist.c:20-21 | reverse_int(0x01080000) is 2049 and reverse_int(0x03080000) is 2051, stored as 00 00 08 01 and 00 00 08 03 |
| Mnist.RangeRequested | src/examples/mnist.c:40 | the first assert: from ≥ 1, and from ≤ to unless to is −1 |
| Mnist.RangeAsWritten | src/examples/mnist.c:52 | the range check as written: the first assert and `from < n` |
| Mnist.LastRecord | src/examples/mnist.c:54-56 | the last record read is never past n, never past to unless to is −1, and is one of them |
| Mnist.RecordCount | src/examples/mnist.c:58 | an accepted range reads at least one record |
| Mnist.RangeSelectsRequested | src/examples/mnist.c:54-58 | under the corrected range condition `Mnist.RangeOk` (the assert with `from <= n`), after `to = -1 → n` and the clamp to n, the records read are exactly the existing ones from `from` to `to`, both ends inclusive, counting from 1, and there are to − from + 1 of them |
| Mnist.RangeAsWrittenMissesLast | src/examples/mnist.c:52 | `from < n` rejects exactly the ranges that start at the last record, and every non-empty range of existing records is accepted by the corrected condition |
| Mnist.OneHot | src/examples/mnist.c:58 | the label matrix is count × 10 |
| Mnist.OneHotGet | src/examples/mnist.c:58-66 | row i holds 1.0 exactly in column labels[i] and 0.0 in the nine others |
| Mnist.Pixels | src/examples/mnist.c:105 | the image matrix is count × 784 |
| Mnist.PixelsGet | src/examples/mnist.c:113 | pixel (j, k) of image i is at column j·28 + k of row i and holds that record's byte j·28 + k |
| Mnist.PixelColumnBijection | src/examples/mnist.c:113 | (j, k) ↦ j·28 + k is a bijection from the 28 × 28 positions onto the columns 0..783 |
| Mnist.LabelSlotAsWritten | src/examples/mnist.c:66 | the unchecked write for label byte b of record i lands in row i + b / 10, column b % 10 |
| Mnist.LabelSlotEscapesRow | src/examples/mnist.c:63-67 | a label byte of 10 or more writes into a later record's row, and for the last record past the end of the buffer |
| Mnist.SlotsInBuffer | src/examples/mnist.c:63-67 | every write of the label loop lands inside the count × 10 buffer |
| Mnist.LabelMarks | src/examples/mnist.c:58-67 | the matrix the label loop leaves in the zeroed buffer is count × 10 |
| Mnist.LabelMarksGet | src/examples/mnist.c:58-67 | cell (i, j) of that matrix is 1.0 exactly when some record writes position i·10 + j |
| Mnist.LabelMarksOneHot | src/examples/mnist.c:58-67 | when every label is below 10, every write stays in the buffer and the matrix is the one-hot matrix of the labels |
| Mnist.ExampleSlots | src/examples/mnist.c:63-67 | labels 10 and 3 write positions 10 and 13 of a 20-cell buffer, and nothing else |
| Mnist.LabelMarksExample | src/examples/mnist.c:63-67 | with labels 10 and 3, row 0 stays all zero and row 1 gets ones in columns 0 and 3 |
| Mnist.Header | src/examples/mnist.c:40-51 | the header checks pass exactly when the range is requested, the file has 8 bytes and the magic matches, and then return the record count; the faults are BadRange, ShortRead and BadMagic |
| Mnist.LabelBody | src/examples/mnist.c:61-67 | after skipping from − 1 labels, exactly RecordCount label bytes are read, in file order, when the file holds them |
| Mnist.LabelRecords | src/examples/mnist.c:39-67 | the label bytes read_labels consumes, as written: on success the header count passes `from < n`, and exactly RecordCount labels are returned, unchecked |
| Mnist.IntendedLabelRecords | src/examples/mnist.c:39-67 | the corrected label reader: on success `from ≤ n` holds (`Mnist.RangeOk`) and exactly RecordCount labels are returned, each below 10 (`Mnist.LabelsInRange`, the corrected label condition) |
| Mnist.LabelReadersAgree | src/examples/mnist.c:39-67 | the two label readers differ only where the as-written one refuses a range starting at the last record, or the corrected one refuses a label of 10 or more |
| Mnist.ParseLabels | src/examples/mnist.c:39-71 | read_labels as written succeeds exactly when the records are read and every write stays in the buffer, with a count × 10 matrix |
| Mnist.IntendedParseLabels | src/examples/mnist.c:39-71 | the corrected reader succeeds exactly when its records are read, with one one-hot row per record |
| Mnist.ImageBody | src/examples/mnist.c:93-116 | the shape check and the pixel read: success exactly when both header sides are 28 and the file holds the records, with RecordCount · 784 bytes |
| Mnist.ImageRecords | src/examples/mnist.c:78-116 | the pixel bytes read_imgs consumes, as written: on success the header count passes `from < n` and exactly RecordCount · 784 bytes are returned |
| Mnist.IntendedImageRecords | src/examples/mnist.c:78-116 | the corrected image reader: on success `from ≤ n` holds and exactly RecordCount · 784 bytes are returned |
| Mnist.ImageReadersAgree | src/examples/mnist.c:78-116 | the two image readers agree except on a range starting at the last record, which only the as-written one refuses |
| Mnist.ParseImages | src/examples/mnist.c:78-120 | read_imgs as written succeeds exactly when its records are read, with a RecordCount × 784 matrix |
| Mnist.IntendedParseImages | src/examples/mnist.c:78-120 | the corrected reader succeeds exactly when its records are read, with a RecordCount × 784 matrix |
| Mnist.LabelFile | src/examples/mnist.c:46-52 | an IDX label file is an 8-byte header followed by one byte per label |
| Mnist.LabelFileHeader | src/examples/mnist.c:46-51 | a label file's header holds the label magic number and the label count, and the labels follow it |
| Mnist.ParseLabelFile | src/examples/mnist.c:39-67 | on a well-formed label file, the as-written reader refuses a range starting at or after the last label and otherwise yields the loop's marks or LabelPastBuffer; the corrected one refuses only a range past the last label and a label of 10 or more, and otherwise yields the one-hot rows of exactly the labels named; on labels below 10 the two agree wherever the as-written one accepts the range |
| Mnist.ImageFile | src/examples/mnist.c:85-98 | an IDX image file is a 16-byte header followed by the pixels |
| Mnist.ParseImageFile | src/examples/mnist.c:78-116 | on a well-formed image file, the as-written reader refuses a range starting at or after the last image and the corrected one only a range past it; otherwise both yield exactly the images named, 784 pixels per row |
| Mnist.FillLabels | src/examples/mnist.c:63-67 | over the zeroed matrix, the loop reports whether every write stays in the buffer and, when it does, leaves exactly the loop's marks, which are the one-hot rows when every label is below 10 |
| Mnist.FillImages | src/examples/mnist.c:108-116 | the three nested loops consume the bytes in file order and leave the image matrix of those bytes |
| Mnist.ReadLabels | src/examples/mnist.c:39-71 | read_labels fails exactly when the as-written value-level reader does, with its fault, and otherwise returns a fresh matrix holding its result |
| Mnist.ReadImages | src/examples/mnist.c:78-120 | read_imgs fails exactly when the value-level reader does, with its fault, and otherwise returns a fresh matrix holding its pixels |

## Left out

- File I/O: `open`, `read`, `lseek` and `close` are not modelled. The file is a byte sequence, and a failed `open` is not a case of the model.
- Console output: `print_Mat2D`, `print_mnist` and the `round` they use.
- The example and test drivers: the example `main`s, `src/examples/xor.c` and the forking test harness. The two tests are stated as lemmas instead.
- The unused n-dimensional `mat_t` (`include/mat.h:7-11`).
- Randomness: `random_init_Mat2D`, `random_mat` and the random bias of `new_dense_layer`. New weights hold whatever the fresh buffer holds. The bias is a parameter of `Cnn.NewDenseLayer` and `Cnn.Network.AddDenseLayer`.
- `exp` and `tanh` are parameters (`CnnSpec.MathLib`), with `exp` positive. Nothing is proved about TANH values; the one fact proved about SIGMOID values is the bound of `CnnSpec.Sigmoid`.
- CnnSpec.Sigmoid: the bound 0 < sigmoid(x) < 1 holds of exact reals only. With C `double`, sigmoid(40.0) rounds to 1.0, and for x below about −709 `exp(-x)` overflows to infinity and the sigmoid is 0.0. The same exact-real abstraction underlies MatrixSpec.PlusScalarTwice and MatrixSpec.ProductDistributes, which for doubles hold only up to rounding.
- OpenMP: `#pragma omp parallel for` is modelled as the sequential loop. The rows written by different threads are disjoint (`Mat.MulRow`, `Cnn.ActivateRow`), but interleavings are not modelled.
- Functions with no definition in the repository: `nn_init_random`, `nn_init_zero`, `nn_backprop`, `nn_layer_output`, `nn_output`, `nn_fit`, `random_mat`. Convolution, pooling and training do not appear in the code.
- Allocation failure: `malloc` and `realloc` always succeed.
- Integer widths in the matrix and network code: `size_t` products such as `rows * cols` are unbounded naturals, and `Cnn.Grown` is the exact floor of 1.5·capacity. The C `double` conversion is exact below 2^53.
- Memory safety: the old activation buffer that `nn_forward` leaks, and use after `nn_destroy`. Destroying a network leaves it not `Valid`.
- Mat.Mul: requires that `out`'s buffer is neither input's buffer. The C code does not check this; with aliasing it would read cells it has already overwritten.
- Cnn.Network.Forward: states each layer's activations, the unchanged parameters and that what it adds to the footprint is newly allocated. It does not state which old activation buffers are dropped (they leak, see memory safety above).
- Cnn.Network.AddDenseLayer: states the new layer's shape, tag and bias, and that earlier layers are kept. It does not restate the parameter list, because the new weights are unspecified.
- Cnn.Network.Destroy: on the abort path it states only the fault, not which earlier layers were already destroyed.
- Cnn.Network.Valid: asks for capacity at least 10, because new_nn starts at 10 and the capacity only grows.
- Mnist.ReverseInt: a 32-bit pattern is an integer in [0, 2^32), and shifts and masks are division and remainder by powers of 256. It is not a `bv32`. The `(int)` cast is two's complement (`Mnist.Int32`).
- Mnist.SwappedReadIsField: assumes a little-endian host, which is what `reverse_int` is written for.
- Mnist.LabelRecords, Mnist.ImageRecords and Mnist.Header: a file that ends early is the fault `ShortRead`. In C, `read` leaves the variables with indeterminate values.
- Mnist.ParseLabels and Mnist.FillLabels: a label write past the end of the buffer is the fault `LabelPastBuffer`, and the loop stops there. In C it is undefined behaviour and the loop goes on.
- Mnist.ImageRecords: the fill loops use 28 for the header's `rows` and `cols`, which `read_imgs` has already asserted to be 28.
- Signed `int` overflow in `read_labels` and `read_imgs` (for example in `(from - 1) * IMG_SIZE`) is not modelled; the arithmetic is unbounded.

## Findings

| source | as written | input that shows it | evidently intended | confidence | as-written member | corrected member |
|---|---|---|---|---|---|---|
| src/examples/mnist.c:63-67 | the label byte `temp` indexes column `temp` of row `i` with no check that it is below 10 | a file with two labels whose first byte is 10: the write sets row 1, column 0; reading a single record (from = to = 1 of a file with two or more labels) whose byte is 10 writes position 10 of a 10-cell buffer | refuse a label that names no column, so that each row is one-hot | high, not executed | Mnist.LabelSlotEscapesRow | Mnist.IntendedLabelRecords |
| src/examples/mnist.c:52 and :91 | `assert(from < n)` | n = 5, from = 5, to = -1 (or to = 5): the last record exists and was requested, but the assert fails | `from <= n`, so that "both ends inclusive, counting from 1" can select the last record | high, not executed | Mnist.RangeAsWrittenMissesLast | Mnist.RangeSelectsRequested |
