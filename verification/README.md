# Encrypt in Dafny: the graph compiler, its evaluator, and the confidential pool

This project models two parts of the Encrypt repository and joins them.

**The graph language.** A function written in the graph language is compiled to calls on a graph
builder; the builder packs a binary graph; the graph is parsed back and walked by an evaluator that
drives a compute engine; the mock engine keeps a table from digests to plaintext bytes. The central
theorem is that all of this computes what the source says. It is proved once for every compute engine
(`CompilerProof`), because both the evaluator and the meaning of the source are written over an engine
parameter; the mock engine, plain numbers, inline mock digests and the type check are then four engines,
related by refinement (`TableRefinement`, `ScalarGraphs`) and composed with the compiler theorem
(`EndToEnd`). What the source says is also written a second time, as arithmetic with neither instruction
codes nor engines (`MethodMeaning`, `ScalarPrograms`), lane by lane and bit by bit for vectors
(`VectorMeaning`), and programs are proved to decrypt to that.

**The pool.** `pc-swap` is a constant-product pool whose reserves, supply and liquidity positions are
encrypted 64-bit numbers. Its arithmetic wraps and divides by zero to zero, so its theorems say which
sums must fit and which products may wrap (`Amm`). The handlers sequence that arithmetic with token
transfers (`PoolProgram`), and over whole runs, interleaved with other transfers, mints, burns and new
accounts of the two tokens, the pool stays solvent under a supply cap, and a share never loses value while
the sums of each step fit (`PoolRuns`).

**The join.** The pool's three graph functions are programs of the modelled language (`PoolGraphs`), so
the compiler theorem applies to them: each compiled graph, evaluated on encrypted words, decrypts to what
the pool model says.

A third, smaller part models how a decryption is answered in chunks and read back (`Decryption`).

## Modules

| file | what it models |
|---|---|
| `Arith`, `Bits`, `LittleEndian` | powers of two, bitwise operators on naturals, little-endian bytes and u128 buffers |
| `FheTypes` | type and operation discriminants, widths, lane counts |
| `ScalarOps` | plaintext semantics of the scalar operations |
| `Lanes` | byte-array lane loops: element-wise, gather, scatter, assign, select, broadcast |
| `GraphFormat`, `GraphBuilding` | nodes, header, serialization and parsing; the builder as a class |
| `Evaluator`, `Script` | the evaluator over any engine; sequences of builder calls and what they mean |
| `Dsl`, `Compiler`, `CompilerProof`, `CompilerAcceptance`, `CompiledSize`, `CompiledInterface` | source programs and their evaluation, the compiler as functions and as its mutable context, and its theorems |
| `MethodMeaning`, `VectorMeaning`, `ScalarPrograms` | what methods, operators and whole scalar programs mean, independently of the tables |
| `MockEngine`, `TableRefinement`, `ScalarGraphs`, `EndToEnd` | the digest-table engine as a class, its refinement, and the composed theorems |
| `Word64`, `StraightLine`, `PoolGraphs` | programs over 64-bit words, and the pool's functions among them |
| `Amm`, `TokenLedger`, `PoolProgram`, `PoolRuns` | the pool: arithmetic, token ledgers, handlers, runs |
| `Decryption` | chunked answers and the two readers of the request account |

State that the source updates in place is a class here (`GraphBuilder`, `Ctx`, `MockComputeEngine`,
`Ledger`, `Program`, `RequestAccount`) or an array (the lane buffers); each method is proved to follow a
function, and the theorems are about the functions. Pure tables and formulas are functions.

## How the model reads the source

- Digests are terms: the digest of a type and bytes is a constructor of both, so different inputs have
  different digests and none is the all-zero digest that stands for an uninitialized ciphertext. This is
  the only assumption about Keccak.
- A Rust panic on a slice index is an explicit outcome (`Panicked`, or `None` for byte computations).
  The per-kind counters and the u16 fields wrap, as in a release build.
- `usize` is 64 bits wide.
- The token program is `pc-token`: the two transfer graphs and the owner check. The outputs of a transfer
  are committed in order, as `chains/solana/test/src/harness.rs` (lines 282-313) commits them, so on a
  transfer from an account to itself the credited balance stands (`TokenLedger.TransferConservesIff`). Runs
  include such transfers, and payouts of a vault to itself (`PoolRuns.Issued`).
- Each instruction is atomic: the runtime undoes a failing one.
- The address of a pool or position is derived from its seeds, so creating the same one twice fails. The
  bump is the caller's: the model takes every bump as valid.
- Account 0 of each ledger is the pool's vault, owned by the pool's program-derived address, which signs
  only through the pool. The two mints are different.
- A decryption request accepts a chunk behind the bytes already written if the announced length allows
  it, as the comment on `respond_decryption` documents; its on-chain program is not part of this model.

## Where code and documentation disagree

The model follows the code.

- `docs/src/dsl/graph-compilation.md` gives a 13-byte header of 16-bit counts; the code writes 8 bytes,
  with 8-bit counts (`GraphFormat.Header`).
- The comment of `crates/encrypt-types/src/graph.rs` orders nodes by kind; the builder appends them in the order
  of the calls, constants among the operations that use them (`Script.Build`).
- `evaluate_graph` documents one digest per encrypted input, and checks that many, but consumes one for
  every plaintext input too, in node order. `Evaluator.MissingPlaintextInputPanics` is the smallest
  failing case and `Evaluator.MissingInputPanicsIff` says exactly when a missing one is an index panic.
- `docs/src/examples/pc-swap/03-testing.md` calls a swap with an unattainable minimum a no-op. The graph's
  two amounts do collapse to zero, but the deposit has already been made and stays in the vault:
  `PoolRuns.SlippageFailureIsNoOpIff` says exactly when nothing changes, and `PoolRuns.GapIsStranded`
  accounts for what is left behind.
- A third operand that is marked present but names no earlier node is ignored by the evaluator instead of
  being an invalid reference (`Evaluator.OperandsDecoded`).
- Shift amounts are compared to the width after truncation to 64 bits, so a 128-bit shift by 2^64 does
  nothing: `ScalarOps.LeftShiftExact` and `ScalarOps.RightShiftExact` give the exact condition.
- The comment on `respond_decryption` speaks of 900 bytes per chunk; the constant is 700.
- `docs/src/dsl/conditionals.md` shows a chain of conditionals whose branches are bare literals; the
  compiler gives a literal a type only as the right operand of an operator and rejects the chain
  (`EndToEnd.LiteralBranchProgramRejected`); `CompilerAcceptance.AcceptedIffMeaning` says exactly which
  programs it accepts.
- `Type::into` is commented as a conversion for scalars and vectors; on vectors it reads the same bytes at the
  new width and converts no element (`VectorMeaning.VectorConversionReinterprets`).
- `docs/src/dsl/constants.md` builds an 8192-byte vector from four elements; the evaluator reads a constant
  back only when it was given in full (`EndToEnd.ConstantReadsBackIff`).
- The first depositor of a pool that still holds reserves but has no shares can withdraw more than the
  deposit. `Amm.FirstDepositProfitsIff` says exactly when, for every deposit whose sums fit, in terms of
  the wrapped products; `Amm.HarmlessLeftoversNeverProfit` gives small leftovers that always suffice, and
  their converse, `Amm.UnwrappedDepositProfitsIff`, is for products that do not wrap. Such a pool is
  reachable (`Amm.ProfitableLeftoversAreReachable`).

## Model

| member | source | states |
|---|---|---|
| CompilerProof.CompilerPreservesMeaning | crates/encrypt-dsl-compile/src/lib.rs:49-493 | For every well-formed function the compiler accepts, every compute engine and all inputs: the emitted builder calls, run as a computation, give exactly the values or the engine failure that direct evaluation of the source gives; temporaries, shadowing lets, literal promotion and conditionals included |
| CompilerProof.CompileComputes | crates/encrypt-dsl-compile/src/lib.rs:123-474 | The inductive core: code emitted for an expression leaves its value in the returned variable, keeps every older variable, and fails exactly as the expression fails |
| CompilerProof.CompileGood | crates/encrypt-dsl-compile/src/lib.rs:123-474 | Emitted code refers only to names already bound, binds only fresh temporaries, and types them within the instruction set |
| CompilerProof.TempNameInjective | crates/encrypt-dsl-compile/src/lib.rs:31-35 | Temporaries with different numbers have different names |
| CompilerProof.CompiledGraphComputesSource | crates/encrypt-dsl-compile/src/lib.rs:49-120 | Compile, build, serialize, parse (with any trailing bytes) and evaluate is direct evaluation of the source, on every engine |
| CompilerProof.CompiledGraphNeverFailsStructurally | crates/encrypt-compute/src/evaluator.rs:85-189 | Evaluating a compiled graph can be stopped only by the engine, and returns one value per output expression |
| CompilerAcceptance.EveryProgramWithAValueCompiles | crates/encrypt-dsl-compile/src/lib.rs:123-493 | The compiler rejects no well-formed program that has a value on some engine and inputs |
| CompilerAcceptance.AcceptedIffValue | crates/encrypt-dsl-compile/src/lib.rs:49-493 | The compiler accepts exactly the well-formed programs that have a value, on every engine whose operations do not fail and on all inputs |
| CompilerAcceptance.AcceptedIffMeaning | crates/encrypt-dsl-compile/src/lib.rs:49-493 | So acceptance is a property of the program alone: it has a meaning on the one-value engine |
| CompiledSize.SmallProgramsFit | crates/encrypt-dsl/src/graph.rs:18-42 | A bound on nodes and constant bytes read off the source implies that the compiled graph is within the u8 counters and the u16 constants length |
| Compiler.Ctx.Expr | crates/encrypt-dsl-compile/src/lib.rs:123-474 | The mutable compiler context emits exactly the statements, variable types and temporary numbers of the specification, and accepts exactly the same expressions |
| Compiler.Ctx.MethodOn | crates/encrypt-dsl-compile/src/lib.rs:142-254 | Method calls by arity: which operand types the result, when the scalar variant is taken, which argument counts are rejected; what each method then computes is `MethodMeaning.MethodsCompute` and its neighbours |
| Compiler.Ctx.Operator | crates/encrypt-dsl-compile/src/lib.rs:256-287 | Binary operators with a literal right operand promoted to a constant of the left operand's (element) type |
| Compiler.Ctx.Conditional | crates/encrypt-dsl-compile/src/lib.rs:301-322 | Both branches are compiled and a Select typed by the first one chooses |
| Compiler.Ctx.Conversion | crates/encrypt-dsl-compile/src/lib.rs:454-459 | A conversion takes its temporary's name before its operand is compiled, and is typed by the target |
| Compiler.Ctx.EmitOutputs | crates/encrypt-dsl-compile/src/lib.rs:478-493 | One output per tuple element, in order |
| Compiler.Ctx.Body | crates/encrypt-dsl-compile/src/lib.rs:84-102 | Lets alias the compiled node under the user's name; other statements emit outputs |
| Compiler.CompileGraph | crates/encrypt-dsl-compile/src/lib.rs:49-120 | Parameters become input nodes in order, then the body is compiled |
| MethodMeaning.MethodsCompute | crates/encrypt-dsl-compile/src/lib.rs:224-251 | A method of a receiver and one argument, for each of the 22 that combine two numbers, on in-range operands of any type from EBool to EUint128: the result is the arithmetic its name says, written without the instruction tables, at the receiver's type; further arguments are ignored |
| MethodMeaning.UnaryMethodsCompute | crates/encrypt-dsl-compile/src/lib.rs:159-182 | The same for the eight unary methods, with `to_boolean` giving a bool |
| MethodMeaning.ChoicesCompute | crates/encrypt-dsl-compile/src/lib.rs:142-222 | `select` and `select_scalar` choose between their arguments by their receiver, and `blend`, `assign` and `assign_scalars` keep a scalar receiver; which operand types the result |
| MethodMeaning.OperatorsCompute | crates/encrypt-dsl-compile/src/lib.rs:256-287 | Operators, with a literal or an expression on the right, are the arithmetic of their symbols |
| MethodMeaning.UnaryOperatorsCompute | crates/encrypt-dsl-compile/src/lib.rs:290-299 | `-x` and `!x` are negation modulo 2^width and the flip of every bit of the width |
| MethodMeaning.MethodInstruction | crates/encrypt-dsl-compile/src/lib.rs:761-814 | The instruction a method name turns into computes, on the mock, what the name says |
| MethodMeaning.InstructionNumbers | crates/encrypt-dsl-compile/src/lib.rs:761-814 | The number each method is known by in a graph |
| MethodMeaning.VariantNumbers | crates/encrypt-dsl-compile/src/lib.rs:838-862 | Which instructions have a scalar variant, and its number |
| MethodMeaning.MisuseRejected | crates/encrypt-dsl-compile/src/lib.rs:144-216 | An unknown method, or one of two arguments called with another number of them, is rejected on every engine |
| MethodMeaning.MissingArgumentGivesZero | crates/encrypt-dsl-compile/src/lib.rs:224-236 | A combining method called without its argument compiles, and evaluates to 0 |
| VectorMeaning.OperatorIsMethod | crates/encrypt-dsl-compile/src/lib.rs:256-287 | On every engine and all values, vectors included, an operator means its method |
| VectorMeaning.LiteralIsConstant | crates/encrypt-dsl-compile/src/lib.rs:259-277 | On every engine a literal right operand means a constant of the left operand's type, or of its element type |
| VectorMeaning.ConditionalIsSelect | crates/encrypt-dsl-compile/src/lib.rs:301-322 | On every engine a conditional means a `select` |
| VectorMeaning.UnaryIsMethod | crates/encrypt-dsl-compile/src/lib.rs:290-299 | On every engine `-x` and `!x` mean `x.negate()` and `x.not()` |
| VectorMeaning.ConstantAcceptedIff | crates/encrypt-dsl-compile/src/lib.rs:325-466 | Exactly which typed constants are accepted: values below 2^128, elements for arithmetic vectors only, byte arrays for elements of more than 16 bytes |
| CompiledInterface.CompiledGraphShows | crates/encrypt-dsl-compile/src/lib.rs:49-120 | The input nodes of a compiled graph are the parameters, in order, encrypted or plaintext, each of its type, and the output nodes are the output expressions, in order, each of the type its expression has in the source |
| CompiledInterface.CompiledHeader | crates/encrypt-dsl/src/graph.rs:115-142 | The header of a compiled graph counts the encrypted parameters, the plaintext parameters and the output expressions of the source |
| EndToEnd.LiteralBranchRejected | crates/encrypt-dsl-compile/src/lib.rs:301-322 | A chain of conditionals of any length with a bare literal for a branch, or without a last else, is rejected wherever it stands |
| EndToEnd.LiteralBranchProgramRejected | crates/encrypt-dsl-compile/src/lib.rs:84-102 | A function any of whose lets is bound to such a chain is rejected, and has no value on any engine |
| EndToEnd.TemporaryNameCaptured | crates/encrypt-dsl-compile/src/lib.rs:31-35 | Why user names must avoid the temporaries' prefix: a parameter called like the first temporary is captured by a literal |
| GraphBuilding.GraphBuilder.AddBytes | crates/encrypt-dsl/src/graph.rs:71-95 | Reuses the first constant node with the same type and bytes, or appends the bytes and a node at the old end of the section; counters stay the kind counts modulo 256 |
| GraphBuilding.GraphBuilder.AddConstant | crates/encrypt-dsl/src/graph.rs:58-69 | A u128 becomes the low bytes of the type's width, zero-padded, then goes through the same search |
| GraphBuilding.GraphBuilder.AddInput | crates/encrypt-dsl/src/graph.rs:46-50 | Pushes an encrypted input node and returns the index it got |
| GraphBuilding.GraphBuilder.AddPlaintextInput | crates/encrypt-dsl/src/graph.rs:52-56 | Pushes a plaintext input node and returns the index it got |
| GraphBuilding.GraphBuilder.AddOp | crates/encrypt-dsl/src/graph.rs:97-101 | Pushes an operation node with the third operand marked absent |
| GraphBuilding.GraphBuilder.AddTernaryOp | crates/encrypt-dsl/src/graph.rs:103-107 | Pushes an operation node with three operands |
| GraphBuilding.GraphBuilder.AddOutput | crates/encrypt-dsl/src/graph.rs:109-113 | Pushes an output node forwarding one node |
| GraphBuilding.GraphBuilder.Serialize | crates/encrypt-dsl/src/graph.rs:115-142 | The buffer is the eight-byte header, nine bytes per node, then the constants |
| GraphBuilding.AddConstantKeepsWellFormed | crates/encrypt-dsl/src/graph.rs:71-95 | Adding a constant of the type's width keeps the constant regions tiling their section and, with the search on, keeps constants pairwise different |
| Script.BuildKeepsWellFormed | crates/encrypt-dsl/src/graph.rs:18-113 | Every sequence of builder calls within the size limits keeps the graph topologically ordered with constant regions tiling their section, and constants pairwise different |
| GraphFormat.SerializeParseInverse | crates/encrypt-types/src/graph.rs:164-253 | Parsing the serialization, with any trailing bytes, gives back every node and the constants exactly when the graph is within the format's limits |
| GraphFormat.NodeRoundTrip | crates/encrypt-types/src/graph.rs:70-112 | The nine bytes of a node give back its kind, operation, type and three operands |
| GraphFormat.SerializedLayout | crates/encrypt-types/src/graph.rs:30-67 | The bytes and their offsets, in numbers: version, the five counts in the documented order, the length of the constants, nine bytes per node with each operand low byte first, then the constants |
| GraphFormat.ParsesIff | crates/encrypt-types/src/graph.rs:205-225 | The parser accepts exactly the data that is at least as long as its header announces |
| GraphFormat.ParsedViews | crates/encrypt-types/src/graph.rs:70-235 | What the parser and the node accessors hand out lies at those offsets, on any bytes it accepts |
| GraphBuilding.AppendedNodes | crates/encrypt-dsl/src/graph.rs:46-113 | The nine bytes each builder call appends |
| GraphBuilding.AppendedConstant | crates/encrypt-dsl/src/graph.rs:71-95 | A new constant names the old end of the section, and its bytes go there |
| GraphBuilding.ConstantBytesAre | crates/encrypt-dsl/src/graph.rs:58-69 | A u128 constant is its value modulo the width, zero past sixteen bytes; an unknown type gets sixteen bytes |
| EndToEnd.ConstantReadsBackIff | crates/encrypt-dsl/src/graph.rs:71-95 | The evaluator reads a constant back as its bytes exactly when they have the type's width |
| Script.DedupInvisible | crates/encrypt-dsl/src/graph.rs:71-95 | For every sequence of builder calls the deduplicating builder and one that always appends evaluate to the same result on every engine, and the former holds no constant twice |
| Script.DedupRenumbers | crates/encrypt-dsl/src/graph.rs:71-95 | The two builders' graphs are related by a node renumbering that maps operands and constant bytes |
| Script.ScriptSimulates | crates/encrypt-compute/src/evaluator.rs:82-189 | After any sequence of builder calls, evaluating the graph gives every bound name the value the calls mean, and the outputs in order |
| Script.SerializedGraphComputesScript | crates/encrypt-compute/src/evaluator.rs:65-189 | Evaluating the serialized graph computes what the builder calls say |
| Evaluator.Decode | crates/encrypt-compute/src/evaluator.rs:85-174 | Whatever a node's bytes, an accepted operation refers only to earlier nodes |
| Evaluator.DecodeErrors | crates/encrypt-compute/src/evaluator.rs:85-174 | Exactly which nodes are refused, and with which error, on any bytes |
| Evaluator.OperandsDecoded | crates/encrypt-compute/src/evaluator.rs:116-160 | How many operands an accepted operation has; a third operand that names no earlier node is dropped without an error |
| Evaluator.OtherKindsDecoded | crates/encrypt-compute/src/evaluator.rs:85-115 | What the other kinds of node do |
| Evaluator.RefusedBeforeStart | crates/encrypt-compute/src/evaluator.rs:65-80 | Data shorter than it announces is an invalid graph, and fewer inputs than the count of encrypted inputs is an error with both numbers, on any bytes |
| Evaluator.NoStructuralError | crates/encrypt-compute/src/evaluator.rs:85-174 | On a well-formed graph the only errors are the engine's and running out of inputs, and an evaluation with fewer inputs than input nodes of either kind never succeeds |
| Evaluator.MissingInputPanicsIff | crates/encrypt-compute/src/evaluator.rs:68-189 | On a serialized well-formed graph and an engine that does not fail, evaluation panics exactly when the inputs cover the encrypted inputs but not the plaintext ones too, and succeeds exactly when they cover both |
| Evaluator.MissingPlaintextInputPanics | crates/encrypt-compute/src/evaluator.rs:68-102 | The smallest such graph: one plaintext input, no inputs, a passing count check, and a panic on any engine |
| Evaluator.EvaluateSerialized | crates/encrypt-compute/src/evaluator.rs:65-189 | The evaluator on serialized bytes: the input-count check against encrypted inputs only, then evaluation of the nodes |
| MockEngine.EvaluateGraph | crates/encrypt-compute/src/evaluator.rs:65-189 | The loop over the nodes with its mutable engine, digest list and input cursor computes the specified run: table, digests and first error |
| MockEngine.NodeDigest | crates/encrypt-compute/src/evaluator.rs:90-170 | One iteration: input, constant, ternary, unary, binary, output or error, threading the engine's table |
| MockEngine.CollectOutputs | crates/encrypt-compute/src/evaluator.rs:176-188 | Digests of the output nodes in node order |
| MockEngine.MockComputeEngine.BinaryOp | crates/encrypt-compute/src/mock.rs:67-78 | Looks up both operands, computes on their bytes, stores the result under its digest; a failing call leaves the table alone |
| MockEngine.MockComputeEngine.UnaryOp | crates/encrypt-compute/src/mock.rs:80-89 | The same with one operand |
| MockEngine.MockComputeEngine.Select | crates/encrypt-compute/src/mock.rs:91-106 | The condition is read as an encrypted bool, the branches without a type, and the result is hashed under a type inferred from its length |
| MockEngine.MockComputeEngine.TernaryOp | crates/encrypt-compute/src/mock.rs:108-125 | Select goes to its own lookup; every other ternary looks all three operands up at the node's type |
| MockEngine.MockComputeEngine.Decrypt | crates/encrypt-compute/src/mock.rs:143-155 | Looked-up bytes, cut or zero-padded to the type's width |
| TableRefinement.UnknownOperandsFail | crates/encrypt-compute/src/mock.rs:157-192 | A call fails for an unknown digest exactly when an operand it looks up is neither all zero nor in the table |
| TableRefinement.DecryptedBytes | crates/encrypt-compute/src/mock.rs:143-192 | An uninitialized ciphertext decrypts to zeros, a known one to its bytes, cut or padded at the end |
| TableRefinement.ResultDigest | crates/encrypt-compute/src/mock.rs:67-89 | A result is known under the digest of its type and bytes |
| TableRefinement.SelectReturnsDigestIff | crates/encrypt-compute/src/mock.rs:91-106 | Choosing between stored values of one type gives back the chosen value's own digest exactly for EUint64, and for EVectorU32 among types of 8192 bytes |
| MockEngine.MockComputeEngine.EncodeConstant | crates/encrypt-compute/src/mock.rs:127-133 | Hashes and stores a 128-bit value as all its 16 bytes, whatever the type |
| MockEngine.MockComputeEngine.RegisterBytes | crates/encrypt-compute/src/mock.rs:213-217 | Puts bytes under a digest the caller names |
| MockEngine.ComputeBinary | crates/encrypt-types/src/identifier.rs:217-269 | Dispatch to the vector, bit-vector and scalar computations computes the specified bytes, or panics where a slice index would |
| MockEngine.ComputeVector | crates/encrypt-types/src/identifier.rs:223-249 | Gather, scatter, copy, get and the element-wise loop on full byte buffers |
| MockEngine.ComputeTernary | crates/encrypt-types/src/identifier.rs:349-389 | Select, scalar select, assign and broadcast assign; any other ternary returns its receiver |
| TableRefinement.EvaluateRefines | crates/encrypt-compute/src/mock.rs:65-206 | For any bytes and any coherent table, evaluating on digests succeeds or fails exactly as the table-free evaluator does, and the output digests stand for its output values |
| TableRefinement.RunRefines | crates/encrypt-compute/src/mock.rs:65-206 | Throughout the run every digest stands for its node's plain value |
| TableRefinement.PlaintextNeverChanges | crates/encrypt-compute/src/mock.rs:194-206 | No later store changes the plaintext of a digest already known |
| ScalarGraphs.TableAgreesWithNumbers | crates/encrypt-types/src/identifier.rs:44-184 | On every well-typed scalar graph with in-range inputs, the table engine and the inline 32-byte mock digests decrypt to the same output values, those of plain arithmetic |
| ScalarGraphs.EvaluationsAgree | crates/encrypt-types/src/identifier.rs:44-184 | The same node by node: type check, number, table value and inline digest agree |
| ScalarGraphs.InlineRoundTrip | crates/encrypt-types/src/identifier.rs:44-56 | An inline digest gives back the value masked to its type, hence an in-range value itself |
| ScalarGraphs.MockDigestBytes | crates/encrypt-types/src/identifier.rs:44-50 | Where the bytes of an inline digest are: sixteen zeros, then the value, most significant byte first |
| ScalarGraphs.DecryptsTo | crates/encrypt-compute/src/mock.rs:143-155 | A digest that denotes a number decrypts to that number's little-endian bytes |
| ScalarGraphs.EncodedInputDenotes | crates/encrypt-compute/src/mock.rs:127-206 | Storing an encoded 128-bit value keeps the table coherent, changes no older plaintext and gives a digest that denotes the value |
| ScalarGraphs.RegisteredInputDenotes | crates/encrypt-compute/src/mock.rs:213-217 | Registering bytes under a new external digest does the same |
| ScalarOps.BinaryClosed | crates/encrypt-types/src/identifier.rs:77-128 | In-range operands give in-range results for every binary operation |
| ScalarOps.UnaryClosed | crates/encrypt-types/src/identifier.rs:131-159 | Every unary operation gives an in-range result |
| ScalarOps.MinMaxChoose | crates/encrypt-types/src/identifier.rs:95-96 | The minimum and the maximum are bounds and one of the operands |
| ScalarOps.ConversionsReduce | crates/encrypt-types/src/identifier.rs:138-147 | A conversion or a bootstrap is reduction modulo 2^width of its type, and `to_boolean` asks for a nonzero value |
| ScalarOps.KeyOperationsReduce | crates/encrypt-types/src/identifier.rs:154-158 | And so is each key operation |
| ScalarOps.ExtractsEnds | crates/encrypt-types/src/identifier.rs:140-144 | The lowest bit, and the highest bit of the width; on an encrypted bool the high bit of its byte |
| ScalarOps.RandomIsCongruential | crates/encrypt-types/src/identifier.rs:120-153 | The mock's random values are one step of a linear congruential generator modulo 2^width, and a range draw is that modulo the bound |
| ScalarOps.MisplacedGivesZero | crates/encrypt-types/src/identifier.rs:126-159 | An instruction used with the wrong number of operands is 0, and a binary blend is its first operand |
| ScalarOps.RingOpsAreModular | crates/encrypt-types/src/identifier.rs:83-88 | Add, subtract, multiply and negate are integer arithmetic modulo 2^width |
| ScalarOps.DivisionIsExact | crates/encrypt-types/src/identifier.rs:89-94 | Division and remainder are exact on in-range operands and give 0 for a zero divisor |
| ScalarOps.BitwiseOpsAreBitwise | crates/encrypt-types/src/identifier.rs:98-100 | Bit i of and, or and xor is the Boolean operation on bits i |
| ScalarOps.ComplementsAreBitwise | crates/encrypt-types/src/identifier.rs:101-102 | Nor, nand and not are the negated operations, bit by bit within the width |
| ScalarOps.LeftShiftExact | crates/encrypt-types/src/identifier.rs:103-106 | A left shift is multiplication by 2^b modulo 2^width exactly when the amount's low 64 bits are the amount, or reach the width as it does, or the operand's remaining bits leave anyway (a condition on a, b and the width) |
| ScalarOps.RightShiftExact | crates/encrypt-types/src/identifier.rs:107-110 | A right shift is floor division by 2^b exactly under the mirrored condition on the operand |
| ScalarOps.ShiftBy2To64IsLost | crates/encrypt-types/src/identifier.rs:103-106 | The smallest amount for which it is not |
| ScalarOps.RotateLeftExact | crates/encrypt-types/src/identifier.rs:475-500 | For EUint8 to EUint128 and any 128-bit amount, the shift/or/mask code moves every bit up by the amount modulo the width |
| ScalarOps.RotateRightExact | crates/encrypt-types/src/identifier.rs:475-500 | The same downwards |
| ScalarOps.RotationsAdd | crates/encrypt-types/src/identifier.rs:486-500 | Two left rotations are the rotation by any amount congruent to their sum |
| ScalarOps.RightRotationsAdd | crates/encrypt-types/src/identifier.rs:486-500 | The same for right rotations |
| ScalarOps.RotateRightUndoesLeft | crates/encrypt-types/src/identifier.rs:486-500 | A right rotation undoes the left rotation by the same amount |
| ScalarOps.RotateLeftUndoesRight | crates/encrypt-types/src/identifier.rs:486-500 | And a left rotation undoes the right rotation by the same amount |
| LittleEndian.BytesRoundTrip | crates/encrypt-types/src/identifier.rs:329-343 | Encoding at a width of at most 16 bytes and decoding is reduction modulo that width, so nothing in range is lost |
| FheTypes.ScalarsDouble | crates/encrypt-types/src/types.rs:67-90 | Byte widths of the scalars |
| FheTypes.VectorsDouble | crates/encrypt-types/src/types.rs:90-116 | Byte widths of bit vectors and of arithmetic vectors |
| FheTypes.ElementsInOrder | crates/encrypt-types/src/types.rs:162-188 | Element types of the vectors |
| EndToEnd.OperatorsMeanArithmetic | crates/encrypt-types/src/identifier.rs:77-128 | Every source operator on in-range scalars of any type from EBool to EUint128, for every right operand, means what its symbol says as integer arithmetic at the type's width, exactly unless it is a shift that loses its amount |
| Lanes.BinaryLoop | crates/encrypt-types/src/identifier.rs:233-249 | The in-place buffer loop of the element-wise operations leaves the specified lane writes |
| Lanes.GatherLoop | crates/encrypt-types/src/identifier.rs:395-408 | Writes a[b[i]] to lane i and leaves 0 where the index is out of range |
| Lanes.ScatterLoop | crates/encrypt-types/src/identifier.rs:412-440 | Writes lane i of the values to the lane its index names, in index order, over zeros or over the base vector |
| Lanes.WriteLane | crates/encrypt-types/src/identifier.rs:322-326 | Overwrites the low bytes of one lane in the buffer and nothing else |
| Lanes.BinaryIsLanewise | crates/encrypt-types/src/identifier.rs:217-249 | For lanes of at most 16 bytes the byte-array loop is the scalar operation on each lane |
| Lanes.UnaryIsLanewise | crates/encrypt-types/src/identifier.rs:272-302 | The same for unary operations |
| Lanes.LaneReads | crates/encrypt-types/src/identifier.rs:310-320 | A lane reads as what is there of its first sixteen bytes |
| Lanes.ElementwisePanicsIff | crates/encrypt-types/src/identifier.rs:233-302 | An element-wise operation panics exactly when an operand lacks more than its last lane |
| Lanes.IndexCounts | crates/encrypt-types/src/identifier.rs:395-440 | An index counts modulo 2^64: only in vectors of 128-bit lanes can it name another lane than itself |
| Lanes.AssignLastWins | crates/encrypt-types/src/identifier.rs:428-440 | Assign is last-write-wins, and every lane no index names keeps its value |
| Lanes.ScatterLastWins | crates/encrypt-types/src/identifier.rs:412-424 | Scatter is last-write-wins over zeros |
| Lanes.GatherLooksUp | crates/encrypt-types/src/identifier.rs:395-408 | Gather is lookup by index, 0 out of range |
| Lanes.GetPicks | crates/encrypt-types/src/identifier.rs:458-471 | Get puts the lane its first index names into lane 0, 0 if there is none, and 0 into every other lane |
| Lanes.CopyIsSecond | crates/encrypt-types/src/identifier.rs:225-231 | Copy is its second operand |
| Lanes.GatherOfAssign | crates/encrypt-types/src/identifier.rs:395-440 | Gathering what was assigned through injective in-range indices gives back the values |
| Lanes.GatherOfScatter | crates/encrypt-types/src/identifier.rs:395-424 | Gather undoes scatter for injective in-range indices |
| Lanes.ScatterOfGather | crates/encrypt-types/src/identifier.rs:395-424 | Scatter undoes gather for a permutation |
| Lanes.AssignScalarsBroadcasts | crates/encrypt-types/src/identifier.rs:442-456 | Broadcast assignment puts the one value into exactly the lanes that some index names and keeps every other lane |
| Lanes.SelectChoosesLanes | crates/encrypt-types/src/identifier.rs:365-389 | The element-wise select takes lane i of the one vector or of the other as lane i of the condition is nonzero or not |
| VectorMeaning.VectorMethodsCombine | crates/encrypt-types/src/identifier.rs:233-249 | A method of two vectors combines them lane by lane as the method says for numbers |
| VectorMeaning.VectorMethodsBroadcast | crates/encrypt-types/src/identifier.rs:229-249 | A method of a vector and a number combines every lane with the number; the six methods without a scalar variant read past the number's bytes and panic |
| VectorMeaning.VectorMethodsTransform | crates/encrypt-types/src/identifier.rs:272-302 | A unary method transforms every lane |
| VectorMeaning.MovesCompute | crates/encrypt-types/src/identifier.rs:223-231 | `gather`, `scatter`, `get` and `copy` are the lane operations of those names |
| VectorMeaning.AssignmentsCompute | crates/encrypt-types/src/identifier.rs:347-365 | `assign`, `assign_scalars` and `select_scalar` are the lane operations of those names; `select` takes one branch whole, and `blend` its receiver |
| VectorMeaning.BitVectorLogic | crates/encrypt-types/src/identifier.rs:250-269 | On bit vectors, bit i of and, or, xor, nor, nand and not is the Boolean operation on bits i, missing bytes being zero |
| VectorMeaning.BitVectorScalarLogic | crates/encrypt-types/src/identifier.rs:250-269 | With a number on the right, its low eight bits repeat along the vector |
| VectorMeaning.BitVectorMethodsCombine | crates/encrypt-types/src/identifier.rs:250-269 | Every combining method on bit vectors is the method on EUint8, byte by byte |
| VectorMeaning.LiteralOnBitVector | crates/encrypt-dsl-compile/src/lib.rs:259-277 | A literal next to a bit vector is an encrypted bool whose byte, the literal modulo 256, meets every byte |
| VectorMeaning.ElementsAreLanes | crates/encrypt-dsl-compile/src/lib.rs:383-415 | The elements of a vector constant become its lanes, in order |
| VectorMeaning.RepeatedBytes | crates/encrypt-dsl-compile/src/lib.rs:417-452 | A splat repeats the bytes of its element |
| VectorMeaning.ConversionMeans | crates/encrypt-dsl-compile/src/lib.rs:454-459 | On every engine a conversion is accepted for every existing type, whatever the operand's, and is instruction 82 at that type |
| VectorMeaning.VectorConversionReinterprets | crates/encrypt-types/src/identifier.rs:272-302 | Converting a vector to another vector type leaves its bytes as they are |
| EndToEnd.ScalarIsSplat | crates/encrypt-types/src/identifier.rs:229-249 | On vectors a scalar variant is the base operation with the constant splatted, for every operation that has one |
| EndToEnd.LiteralIsSplat | crates/encrypt-dsl-compile/src/lib.rs:259-287 | In the source, a vector operated with a bare literal means the same as with a splat of it, for every operator but the shifts |
| EndToEnd.CompiledSourceOnTable | crates/encrypt-compute/src/evaluator.rs:65-189 | Source to digests, vectors included: the outputs of the compiled graph on the table engine stand for the values direct evaluation gives |
| EndToEnd.CompiledScalarsDecrypt | crates/encrypt-compute/src/mock.rs:143-155 | For programs that pass the scalar type check, every output decrypts to the bytes of the number the source computes |
| ScalarPrograms.ScalarProgramsDecrypt | crates/encrypt-dsl-compile/src/lib.rs:49-493 | Every small program over scalars of at most 128 bits, with methods, operators, conditionals, conversions and constants of mixed types, that says something as arithmetic: it compiles within the limits, and evaluating its serialized graph over digests of the arguments gives digests that decrypt to what it says |
| ScalarPrograms.MeaningEvaluates | crates/encrypt-dsl-compile/src/lib.rs:123-474 | On the number engine every expression evaluates to what it says as arithmetic, and it passes the type check at that type |
| Word64.CompiledWordsDecrypt | crates/encrypt-dsl-compile/src/lib.rs:49-493 | The same for programs over 64-bit words whose operators are total: compiles within the limits, and decrypts to wrapping 64-bit arithmetic |
| Word64.ValueMeans | crates/encrypt-dsl-compile/src/lib.rs:123-322 | In the 64-bit fragment an expression says the word |
| StraightLine.ProgramComputes | crates/encrypt-dsl-compile/src/lib.rs:84-102 | A program of lets returns the values its lines give, by position instead of name |
| Amm.ConstantProduct | chains/solana/examples/pc-swap/pinocchio/src/lib.rs:132-142 | The product of the reserves does not fall and a two-sided pool stays two-sided, for all 64-bit inputs whose two sums fit, even when the numerator wraps and whatever the slippage check says |
| Amm.PriceBound | chains/solana/examples/pc-swap/pinocchio/src/lib.rs:132-142 | A payout never exceeds the fee-adjusted rational price nor the reserve |
| Amm.SwapPaysMost | chains/solana/examples/pc-swap/pinocchio/src/lib.rs:132-142 | A payout is the largest that keeps the fee-adjusted product of the reserves |
| Amm.SwapExact | chains/solana/examples/pc-swap/pinocchio/src/lib.rs:125-143 | For all words: the payout is the quotient of the two fee-adjusted sides, each reduced to a word once, 0 for a zero divisor; the reserves move by what is paid, or not at all below the minimum |
| Amm.WrappedDenominatorBreaksProduct | chains/solana/examples/pc-swap/pinocchio/src/lib.rs:134-135 | The sums' bound is needed: a concrete swap with a wrapped denominator lowers the product |
| Amm.SplittingNeverPaysMore | chains/solana/examples/pc-swap/pinocchio/src/lib.rs:125-143 | Swapping x and then y yields at most what one swap of x + y yields, flooring included, when the single numerator and the denominators do not wrap |
| Amm.WrappedNumeratorRewardsSplitting | chains/solana/examples/pc-swap/pinocchio/src/lib.rs:133-135 | The numerator's bound is needed: a concrete whole trade pays 0 and its half pays |
| Amm.SwapBackNeverProfits | chains/solana/examples/pc-swap/pinocchio/src/lib.rs:125-143 | Swapping the proceeds of a swap back returns at most its input, with any slippage limits |
| Amm.AddKeepsShares | chains/solana/examples/pc-swap/pinocchio/src/lib.rs:162-179 | A deposit does not lower the squared value of a share, even when its products wrap |
| Amm.SwapKeepsShares | chains/solana/examples/pc-swap/pinocchio/src/lib.rs:125-143 | Nor does a swap in either direction |
| Amm.RemoveKeepsShares | chains/solana/examples/pc-swap/pinocchio/src/lib.rs:200-222 | Nor does a withdrawal, sufficient or not |
| Amm.WithdrawalBound | chains/solana/examples/pc-swap/pinocchio/src/lib.rs:200-222 | A withdrawal pays at most the burned share of each reserve, and never more than the reserve |
| Amm.AddExact | chains/solana/examples/pc-swap/pinocchio/src/lib.rs:153-188 | A deposit mints the largest amount both receipts cover, whatever the products wrap to, or the first receipt into a pool without shares; and what every output then is |
| Amm.RemoveExact | chains/solana/examples/pc-swap/pinocchio/src/lib.rs:192-223 | A withdrawal within the position pays the largest amounts the share is worth, whatever the products wrap to; any other changes nothing |
| Amm.AddRemoveNeverProfits | chains/solana/examples/pc-swap/pinocchio/src/lib.rs:153-223 | From a pool with shares outstanding, adding and burning exactly what was minted returns at most each deposit |
| Amm.FirstDepositProfitsIff | chains/solana/examples/pc-swap/pinocchio/src/lib.rs:153-223 | From a pool without shares the same round trip returns at most the deposits exactly when the two shares, wrapped products included, stay within them: for every deposit whose sums fit |
| Amm.HarmlessLeftoversNeverProfit | chains/solana/examples/pc-swap/pinocchio/src/lib.rs:153-223 | Small leftovers suffice, for every such deposit: a first reserve of at most 2, and a second whose product with x is at most x + y |
| Amm.UnwrappedDepositProfitsIff | chains/solana/examples/pc-swap/pinocchio/src/lib.rs:153-223 | When the two products do not wrap, only such leftovers do |
| Amm.WrappedShareForgivesLeftovers | chains/solana/examples/pc-swap/pinocchio/src/lib.rs:200-222 | The products' bound is needed: a concrete wrapped product pays nothing from large leftovers |
| Amm.ProfitableLeftoversAreReachable | chains/solana/examples/pc-swap/pinocchio/src/lib.rs:153-223 | A first deposit, its full withdrawal, and the next depositor takes 499 of the units left behind |
| Amm.EmptyPoolNeverProfits | chains/solana/examples/pc-swap/pinocchio/src/lib.rs:153-223 | In particular from a wholly empty pool, for every deposit, even when the products or the divisor wrap |
| PoolGraphs.SwapFnMeans | chains/solana/examples/pc-swap/pinocchio/src/lib.rs:125-143 | The swap function as a program of the graph language returns what `Swap` says |
| PoolGraphs.AddFnMeans | chains/solana/examples/pc-swap/pinocchio/src/lib.rs:153-188 | The deposit function returns the receipts and what `Add` says |
| PoolGraphs.RemoveFnMeans | chains/solana/examples/pc-swap/pinocchio/src/lib.rs:192-223 | The withdrawal function returns what `Remove` says |
| PoolGraphs.CompiledSwap | chains/solana/examples/pc-swap/pinocchio/src/lib.rs:125-143 | The compiled, serialized and evaluated swap graph decrypts to what `Swap` says, with compilation and size limits established |
| PoolGraphs.CompiledAdd | chains/solana/examples/pc-swap/pinocchio/src/lib.rs:153-188 | The same for the deposit graph |
| PoolGraphs.CompiledRemove | chains/solana/examples/pc-swap/pinocchio/src/lib.rs:192-223 | The same for the withdrawal graph |
| PoolGraphs.CompiledSwapKeepsProduct | chains/solana/examples/pc-swap/pinocchio/src/lib.rs:125-143 | The constant-product theorem, stated of the decrypted outputs of the evaluated swap graph |
| TokenLedger.Ledger.Transfer | chains/solana/examples/pc-token/pinocchio/src/lib.rs:136-141 | Moves the amount if the source covers it, nothing otherwise; a call not signed by the source's owner is rejected and changes nothing; on one account for both sides the second output stands |
| TokenLedger.Ledger.TransferWithReceipt | chains/solana/examples/pc-token/pinocchio/src/lib.rs:168-175 | The same with the amount moved as the receipt |
| TokenLedger.TransferMoves | chains/solana/examples/pc-token/pinocchio/src/lib.rs:136-141 | Between two accounts, with the supply below 2^64, a transfer conserves the total and changes no third account; on one account the covered amount is credited to it |
| TokenLedger.TransferConservesIff | chains/solana/test/src/harness.rs:282-313 | With the supply below 2^64 a transfer conserves the total exactly when its accounts differ or nothing is moved, because both outputs of the graph are committed in turn |
| TokenLedger.ReceiptTransferMoves | chains/solana/examples/pc-token/pinocchio/src/lib.rs:162-175 | The receipt is all or nothing, and the balances are those of the plain transfer, self-transfers included |
| TokenLedger.TransferExact | chains/solana/examples/pc-token/pinocchio/src/lib.rs:136-175 | A transfer is accepted exactly when both accounts exist and the signer owns the source, and moves the amount exactly when the source holds at least that much |
| PoolProgram.Program.Swap | chains/solana/examples/pc-swap/pinocchio/src/lib.rs:875-1040 | The handler's steps (receipt-gated deposit, swap graph on the receipt, payout) make exactly the specified transition, or reject and leave every account as it was, whichever accounts are named |
| PoolProgram.Program.AddLiquidity | chains/solana/examples/pc-swap/pinocchio/src/lib.rs:1063-1220 | Two receipt-gated deposits and the deposit graph; the owner check on the position |
| PoolProgram.Program.RemoveLiquidity | chains/solana/examples/pc-swap/pinocchio/src/lib.rs:1226-1382 | The withdrawal graph and both payouts |
| PoolProgram.Program.CreatePool | chains/solana/examples/pc-swap/pinocchio/src/lib.rs:531-660 | Fresh vaults owned by the pool, reserves and supply at zero; on a pool that exists already it fails and changes nothing |
| PoolProgram.Program.CreatePosition | chains/solana/examples/pc-swap/pinocchio/src/lib.rs:773-848 | A zero position for an owner, on an initialized pool only; at an owner and bump already used it fails and changes nothing |
| PoolProgram.SwapAccepted | chains/solana/examples/pc-swap/pinocchio/src/lib.rs:875-1040 | A swap succeeds exactly under the listed conditions on pool, accounts and owners, and each rejection has the error of its reason |
| PoolProgram.AddAccepted | chains/solana/examples/pc-swap/pinocchio/src/lib.rs:1063-1220 | The same for a deposit |
| PoolProgram.RemoveAccepted | chains/solana/examples/pc-swap/pinocchio/src/lib.rs:1226-1382 | The same for a withdrawal |
| PoolProgram.PoolCreatedOnce | chains/solana/examples/pc-swap/pinocchio/src/lib.rs:531-660 | A pool is created exactly once, and keeps the accounts there were |
| PoolProgram.PositionCreatedOnce | chains/solana/examples/pc-swap/pinocchio/src/lib.rs:773-848 | A position is created exactly once for an owner and a bump, empty, in its owner's name, and nothing else changes |
| PoolRuns.HappensIffAllowed | chains/solana/examples/pc-swap/pinocchio/src/lib.rs:875-1382 | Any action takes effect exactly when its accounts exist and belong to its signers; amounts never decide |
| PoolRuns.WithdrawalNeverBlocked | chains/solana/examples/pc-swap/pinocchio/src/lib.rs:1226-1382 | After any run whatever, whoever holds a position can withdraw any part of it |
| PoolRuns.RunsStaySolvent | chains/solana/examples/pc-swap/pinocchio/src/lib.rs:954-1380 | Every reachable state is solvent: each reserve at most its vault, and the positions' sum equal to the supply, whatever accounts the actions name, while each token's supply stays at most (2^64 - 1) / 1000 and no liquidity mint overflows |
| PoolRuns.RunsPayInFull | chains/solana/examples/pc-swap/pinocchio/src/lib.rs:1003-1040 | In every reachable state, the next instruction's payouts are covered by the vaults and arrive in full, at the vault itself too while its supply stays below the cap |
| PoolRuns.PayoutsCovered | chains/solana/examples/pc-swap/pinocchio/src/lib.rs:1322-1382 | The same for one step, with the vault debited by exactly the payout unless it pays itself |
| PoolRuns.ShareNeverFalls | chains/solana/examples/pc-swap/pinocchio/src/lib.rs:125-223 | Over every run, with shares outstanding before each step, whose steps' own sums and mints fit in 64 bits, `ra * rb * ts'^2 <= ra' * rb' * ts^2` between its start and its end: no bound on either token's supply, no backing of the reserves, any accounts |
| PoolRuns.CappedShareNeverFalls | chains/solana/examples/pc-swap/pinocchio/src/lib.rs:125-223 | The supply cap makes every such sum fit, so under it only the liquidity mints are asked to fit |
| PoolRuns.GapIsStranded | chains/solana/examples/pc-swap/pinocchio/src/lib.rs:954-1040 | What a vault holds beyond its reserve is exactly the deposits of swaps that failed their slippage check, tokens sent or minted to the vault directly, and twice what it paid to itself |
| PoolRuns.SupplyIsIssued | chains/solana/examples/pc-swap/pinocchio/src/lib.rs:954-1380 | Over every run, swaps, deposits and withdrawals conserve each token: its supply over all accounts changes by exactly what was minted, less what was burned, plus what self-transfers and self-payments credited without a debit |
| PoolRuns.MirrorIsExactIff | chains/solana/examples/pc-swap/pinocchio/src/lib.rs:990-1001 | From creation on, a reserve equals its vault exactly until the first stranded token |
| PoolRuns.SlippageFailureIsNoOpIff | chains/solana/examples/pc-swap/pinocchio/src/lib.rs:114-124 | A swap that fails its slippage check changes nothing exactly when nothing was deposited |
| PoolRuns.PositionsKeptIff | chains/solana/examples/pc-swap/pinocchio/src/lib.rs:173-179 | A deposit keeps the positions' sum equal to the supply exactly when the mint fits both, or neither, whatever the ledgers hold |
| PoolRuns.PositionsStep | chains/solana/examples/pc-swap/pinocchio/src/lib.rs:173-222 | Every instruction whose mint fits keeps that sum, whatever the ledgers hold |
| PoolRuns.ShareStep | chains/solana/examples/pc-swap/pinocchio/src/lib.rs:125-223 | No single step whose sums and mint fit lowers the value of a share |
| PoolRuns.PoolChange | chains/solana/examples/pc-swap/pinocchio/src/lib.rs:954-1380 | What an accepted instruction does to the reserves, supply and positions depends only on the amounts its deposits cover; every other action leaves them alone |
| Decryption.RespondDecryption | chains/solana/dev/src/tx_builder.rs:128-177 | The loop sends the chunks in order, stops at the first rejected one, and completes exactly when the request has room for the whole plaintext |
| Decryption.RequestAccount.Receive | chains/solana/dev/src/tx_builder.rs:128-132 | The documented on-chain side: a chunk lands behind the bytes written so far, or its transaction fails |
| Decryption.AllOrNothing | chains/solana/program-sdk/types/src/accounts.rs:59-92 | No proper prefix of the transactions reads as complete for either reader, each reporting the exact progress, and after the last both return exactly the plaintext |
| Decryption.WrittenPrefix | chains/solana/dev/src/tx_builder.rs:148-176 | After k chunks the account holds exactly the first bytes of the plaintext |
| Decryption.ChunkSizes | chains/solana/dev/src/tx_builder.rs:148-176 | Chunks of 700 bytes but for the last, and how many there are |
| Decryption.AccountLayout | chains/solana/program-sdk/types/src/accounts.rs:23-30 | Where the two lengths and the body are in the account |
| Decryption.HandedOutIff | chains/solana/program-sdk/types/src/accounts.rs:59-92 | On any account bytes, exactly when each reader hands out a value, and which |
| Decryption.ReportedOtherwise | chains/solana/program-sdk/types/src/accounts.rs:59-92 | And what each reports otherwise |
| Decryption.ReadersAgreeIff | chains/solana/dev/src/tx_builder.rs:374-399 | On any account bytes the two readers hand out the same value or none, exactly outside two cases: a finished request of another length, and one claiming more bytes than announced |

## Left out

- Rust token text: parsing by `syn`, the type-name table, the comparison of the declared return types with
  the outputs. Programs start as syntax trees with types already resolved to their ids.
- Branch blocks with inner lets: the compiler silently drops all but the last expression of a branch, and
  the model's branches are single expressions.
- User names starting with `__gb`, the builder's variable in the generated code, are excluded together
  with those starting with `__t`; what rustc says about them is not modelled.
- Scalars above 128 bits and lanes above 16 bytes: the engine computes on their low 16 bytes, and no exact
  claim is made about them.
- The overflow panics of a debug build on the builder's counters; the model wraps.
- The u32 wrap-around of the temporary counter after 2^32 temporaries.
- Keccak, real FHE, proofs, signatures, BCS.
- CPI plumbing, account metas, signers other than the owner checks, PDAs, rent, deposits, ciphertext
  authorization and closing, frozen accounts, delegates.
- The gRPC and TypeScript clients, servers, UI, and the counter, ACL, voting and coin-flip programs: a
  one-operation graph or a tiny state machine each.
- MockEngine.EvaluateGraph: says nothing about the table after a failed evaluation, because the source
  returns the error with whatever the engine had stored and no caller reads it.
- PoolProgram.Program.CreatePool: one pool for the two mints; pools at other bumps are separate
  worlds. Whether a bump yields an address off the curve is not modelled.
- Decryption.RequestAccount.Receive: models the documented bookkeeping of the on-chain program only; its
  own source is not part of this model.
- PoolRuns.ShareNeverFalls: covers runs in which shares are outstanding before every step (with none there
  is no share to value) and every step's own sums and mint stay below 2^64: a wrapped denominator lowers
  the product (`Amm.WrappedDenominatorBreaksProduct`).
- Amm.SplittingNeverPaysMore: is stated with the single trade's numerator and all denominators unwrapped;
  `WrappedNumeratorRewardsSplitting` shows that this cannot be dropped.
