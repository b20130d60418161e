# Verification of the two-server private aggregation protocols

Two servers aggregate the secret-shared inputs of many clients without seeing them. This project models the parts
of that system that are exact arithmetic and state, in Dafny, and proves that they do what they are for:

* **The SNIP proof system.** A client turns the multiplication gates of a circuit into polynomials f and g with a
  number-theoretic FFT and shares h = f g; each server rebuilds its wires, interpolates at one shared point with
  precomputed Lagrange weights, and runs a Beaver-triple check whose two outputs must cancel. Proved: correctness of
  the FFT with its shared scratch buffers, of the product tree, the remainder tree and the barycentric evaluation;
  completeness for every accepted input and all randomness; and, for arbitrary packets, a bound of 2N on the number of
  points that can hide a wrong multiplication gate, carried on to the servers' verdict and to the share of all random
  draws that accept a rejected input.
* **Share conversion.** XOR shares become additive shares modulo p by oblivious transfer on 64-bit words, or with
  daBits taken from a cached store. Proved: both conversions, exactly when the 64-bit arithmetic suffices (also for
  the making of daBits), lockstep of the two stores over every sequence of calls, Boolean multiplication, and a
  ripple-carry adder over lanes of different widths.
* **Heavy hitters, count-min and linear regression.** Proved: the client's encoding matches the servers' indexing, the
  opened totals are the intended counts or moments, the search over lossy sketches never drops a heavy value, and the
  matrices handed to the solver are the moment matrices of the clients' own data.

## How it is organised

| files | content |
|---|---|
| `Modular`, `Poly`, `RootsOfUnity` | congruences and inverses; polynomials as coefficient sequences, root counting, interpolation; roots of unity |
| `Sets`, `Permutations`, `Rows`, `KeyMatch` | finite sets, sequences in another order, tables stored by rows, matching of submissions by key |
| `Fft`, `RootTables`, `PolyBatch`, `PolyOnce` | the FFT, the root tables, product and remainder trees, evaluation at one point |
| `Circuits`, `ValidCircuits`, `Shares` | circuits and their wires, the validity circuits, additive shares and triples |
| `Snip`, `SnipTheorems`, `SnipSoundness`, `VerdictSoundness`, `SoundnessError`, `Verdicts` | what prover and verifier compute, completeness, bounds for arbitrary packets, what a verdict means, the soundness error |
| `Client`, `Checkers`, `Servers`, `Validation`, `Sessions` | prover, verifier objects, the precompute store, batches, both servers over time |
| `Words`, `Ot`, `BoolOt`, `BitsumOt`, `BitSum` | 64-bit words and bits, conversion by transfer, Boolean triples, counting sums, the bit-sum operation |
| `DaBits`, `Correlated`, `Conversion`, `BinaryAdder`, `StoreRuns` | daBits, the stores of both servers, the two conversions, the adder, whole runs |
| `Aggregation`, `Sketches`, `Hashes`, `Heavy`, `OneHotCheck`, `SketchBatch`, `HeavyRun`, `CountMinRun` | totals, sketches, hashes, the search, the batch check, both sketch operations |
| `LinReg`, `LinRegClients`, `LinRegMoments`, `LinRegServers`, `LinRegRun` | regression: layout and matrices, clients, exact moments, servers, the whole run |

The prime `Int_Modulus`, the generator and `twoOrder` are parameters; what the proofs need of them is the predicate
`RootTables.Params.Valid`. Every random draw is an assign-such-that statement over the range of the draw, so each
theorem holds for all randomness. A message between the servers is modelled by both servers knowing the value; the two
servers are one joint state whose steps are pairs of matching calls. Oblivious transfer is ideal: the receiver's cell
is the message its bit selects. Where the source updates arrays or fields step by step the model has methods over
arrays and classes, each proved against a function or a predicate, and the laws are lemmas about those. Some lemmas
and methods close long contexts with `hide`, which only removes definitions from a proof.

## Where the code does less than it suggests

* `constants.h:63` calls the shipped modulus a 63-bit number; it has 64 bits. The transfer-based conversion adds three
  numbers below the modulus in a 64-bit word, so with this modulus it is wrong for some shares and randomness at every
  width. `Ot.ConversionExact` gives the exact condition for an odd modulus: 2 mod + 2^(bits-1) must not pass 2^64, or
  the sender's sum wraps, and 2^(bits-1) must not pass the modulus, or `ot.cpp:144` subtracts below zero (modulus 97
  with 8 bits fails that way). `Ot.ShippedModulusOverflows` is the instance for the shipped modulus, and
  `DaBits.GeneratedExact` and `DaBits.GenerationExact` do the same for the generation of daBits.
* With an odd modulus the counting transfer is right for all randomness only when there is nothing to count, because
  `ot.cpp:76` does not reduce the second message: `BitsumOt.OddAlwaysExact`. The server calls it without a modulus,
  where it is always right: `BitsumOt.NativeCounts`.
* `correlated.h:45` says that daBits are added in batches; the code adds exactly the missing number
  (`correlated.cpp:26-27`), and so does the model.
* The verdict loops of the batch check keep the last row only. `OneHotCheck.VerdictMeansAllRows` says exactly when that
  covers every row, `OneHotCheck.EarlierRowIgnored` gives a batch that is accepted although a row fails, and
  `SketchBatch.CheckBatch` gives the exact condition for acceptance.
* The client's test of the modulus before a regression multiplies in 64 bits. It gives the bound it is meant for, for
  every modulus, if and only if the product fits a word (`LinRegMoments.ModulusTestExact`); with 31 bits and four
  clients every 64-bit modulus passes (`LinRegMoments.ModulusTestWraps`). `LinRegMoments.RoomyIsExact` says exactly
  when all moments come out right.
* `makeLocalDaBit` needs an odd modulus; `DaBits.MakeLocalDaBit` states this as an equivalence.

## Model

| member | source | states |
|---|---|---|
| Circuits.Circuit.constructor | circuit.h:65-70 | A circuit with `num_inputs` input gates and no result_zero gates |
| Circuits.Circuit.AddCheckMulEqual | circuit.h:194-205 | Appends the gates of i * j - k, with the negated constant reduced mod p, and makes the difference a result_zero gate |
| Circuits.Circuit.Eval | circuit.h:89-143 | Overwrites every wire, in gate order, with its value for the five gate types; the answer is true exactly when all result_zero wires are 0 |
| Circuits.Circuit.ImportWires | circuit.h:158-191 | Overwrites every wire with this server's share: input and multiplication wires from the two lists in order, constants added by server 0 only |
| Circuits.WireMeans | circuit.h:89-143 | In an evaluated circuit every wire is congruent to its gate's sum or product of its parents' wires, inputs in order |
| Circuits.ShareMeans | circuit.h:158-191 | An imported share is congruent to the same operation on the parents' shares, with the constant on server 0 only and products from the packet in order |
| Circuits.ShareOfGate | circuit.h:162-188 | If all earlier wires are shared, the two shares of the next gate add to its value, for each of the five gate types |
| Circuits.ImportIsHomomorphic | circuit.h:158-191 | For every topologically ordered circuit: if input and multiplication shares add to the evaluation, the two imported shares of every wire add to its evaluated value |
| ValidCircuits.CheckVar | circuit.h:228-234 | Builds the circuit that checks x * x = y |
| ValidCircuits.CheckVarAccepts | circuit.h:228-234 | On every input the circuit accepts exactly when x * x and y are equal mod p |
| ValidCircuits.CheckLinReg | circuit.h:241-261 | Builds, with the running field index, the checks of all x_i x_j (i <= j) and all y x_i, for every degree |
| ValidCircuits.NumFieldsClosed | circuit.h:242-243 | The source's closed formula for the number of fields equals the length of the layout |
| ValidCircuits.AcceptsExactly | circuit.h:89-143 | A circuit made of product checks accepts an input if and only if every check holds mod p |
| ValidCircuits.CheckLinRegAccepts | circuit.h:241-261 | Accepts exactly the inputs whose triangular x_i x_j block and y x_i block are correct mod p |
| Shares.NextPowerOfTwo | share.cpp:11-16 | The smallest power of two above n, for every n whose result fits an unsigned int |
| Shares.SplitShare | share.cpp:18-22 | Two reduced shares that add to the value, whatever share is drawn |
| Shares.EverySplitOccurs | share.cpp:18-22 | Every pair of reduced shares of the value is the split for some draw |
| Shares.NewTripleShares | share.cpp:47-64 | The two triple shares reconstruct a, b and a b |
| RootTables.Tables.InitRoots | constants.cpp:32-84 | For every size: keeps the tables when N is unchanged, else rebuilds them as the powers of the generator, and of its inverse, in steps of 2^twoOrder / N and half of it |
| RootTables.PowersAreTables | constants.cpp:32-84 | Where N is a power of two and 2N divides 2^twoOrder these powers are the N-th roots of unity, their inverses and the 2N-th roots |
| RootTables.SmallParamsValid | constants.h:29-31 | The parameter set with modulus 97 meets every assumption the proofs make |
| RootTables.TableFacts | constants.cpp:48-79 | roots2 and roots have distinct entries, roots2[2i] = roots[i], roots[i] invroots[i] = 1, roots2[i+N] = -roots2[i] |
| RootsOfUnity.RootTableDistinct | constants.cpp:68-79 | Powers of a principal n-th root are pairwise distinct mod p |
| RootsOfUnity.Orthogonality | poly/fft.c:37-63 | For v inverse to w, the sum of (v^m w^k)^j over the n values of j is n when m = k and 0 otherwise, the law behind the inverse transform |
| Fft.FoldSums | poly/fft.c:11-16 | Writes the folded sums and the even roots into the caller's scratch prefix and nothing else |
| Fft.FoldDifferences | poly/fft.c:24-29 | Writes the twisted differences into the scratch prefix and nothing else |
| Fft.FftRecurse | poly/fft.c:4-35 | With overlapping scratch regions of length n, out receives the transform, and every prefix the callers still need is intact |
| Fft.FftIsTransform | poly/fft.c:4-35 | The recursion's result at k is the sum of ys[j] w^(jk) mod p, for every power of two n and principal root w |
| Fft.FftInterpolate | poly/fft.c:37-72 | Scratch arrays of length n suffice; out is the transform, divided by n when inverting |
| Fft.DftIsEvaluation | poly/fft.c:4-35 | Entry k of the transform is the value of the polynomial with coefficients ys at w^k |
| Fft.InverseIsInterpolation | poly/fft.c:53-63 | The scaled transform by the inverse roots gives a polynomial whose values at the roots are the points |
| Fft.InverseIsInterpolant | poly/fft.c:53-63 | That polynomial is the interpolating polynomial, everywhere |
| Fft.RoundTrip | poly/fft.c:37-72 | Inverse then forward transform is the identity on every reduced vector |
| Poly.InterpolationUnique | poly/poly_once.c:21-98 | Two polynomials of degree below n that agree on n distinct points agree everywhere |
| Poly.FromRootsProduct | poly/poly_batch.c:106-114 | The product of the root polynomials of two halves is the root polynomial of the whole |
| Poly.SlopeAtRoot | poly/poly_batch.c:130-135 | The derivative of the product at x_i is the product of x_i - x_j over the other points |
| PolyBatch.TreeInit | poly/poly_batch.c:74-115 | A tree for any number of points whose every node is the product of X - x_i over its points |
| PolyBatch.FastEvaluate | poly/poly_batch.c:236-255 | For any n >= 1 and degree below n, position i receives the value at x_i and no other cell changes |
| PolyBatch.RemAtRoot | poly/poly_batch.c:246-247 | A remainder has the dividend's value wherever the divisor vanishes |
| PolyBatch.Precomp.constructor | poly/poly_batch.c:117-141 | Weight i is the inverse of the product of x_i - x_j over the other points |
| PolyOnce.FindNode | poly/poly_once.c:21-27 | The first node equal to x, or -1 exactly when there is none |
| PolyOnce.FillCoefficients | poly/poly_once.c:50-60 | Every coefficient is (x - x_i)^-1 times the full product times the weight, mod p |
| PolyOnce.PreX.constructor | poly/poly_once.c:21-64 | Holds either the node equal to x or the Lagrange coefficients at x |
| PolyOnce.PreX.Eval | poly/poly_once.c:78-98 | The value at x of the interpolating polynomial, also when x is a node |
| PolyOnce.ValueOfAnyInterpolant | poly/poly_once.c:78-98 | That value is the value of every polynomial of degree below n through the points |
| PolyOnce.ValueAdditive | poly/poly_once.c:78-98 | Evaluating shares gives shares of the evaluation |
| Snip.OperandWires | client.h:27-38 | Entry k of the left and right lists is the wire of that parent of the k-th multiplication gate |
| Snip.PadCells | client.h:27-38 | The points of f and g: the constant, the wires in order, zeros |
| Snip.ProductCells | server.h:213-230 | The points of h: constant, output wires and zeros at even cells, the packet's points at odd cells |
| Snip.FillWirePoints | client.h:27-38 | Cell 0 holds the constant, cells 1..n the wires, the rest stays 0 |
| Client.SplitAll | circuit.h:149-156 | Every multiplication wire is split into two shares |
| Client.EvaluateOnRoots2 | client.h:45-62 | Inverse transform, padding and forward transform give the interpolant's values on all 2N roots in order |
| Client.EvenEvaluations | client.h:60-62 | At even indices the evaluations are the points themselves |
| Client.HPoints | client.h:22-73 | The sent points are f g at the odd 2N-th roots |
| Client.FillPackets | client.h:69-84 | f(0), g(0), h(0), the points of h, the multiplication wires and a triple are split between the packets |
| Client.SharePolynomials | client.h:14-95 | The two packets are shares of what an honest prover sends, for all its randomness, when the tables are empty or built for this size |
| Checkers.CheckerPreComp.constructor | server.h:102-107 | Batch precomputes for the N-th and the 2N-th roots |
| Checkers.CheckerPreComp.SetCheckerPrecomp | server.h:109-115 | Both point precomputes are for the given value |
| Checkers.FillProductPoints | server.h:213-230 | Points of h: the constant, output wires at even cells, packet points at odd cells |
| Checkers.Checker.constructor | server.h:172-197 | Imports the wires and evaluates the server's f, r g and r h |
| Checkers.Checker.EvalPoly | server.h:209-240 | evalF, evalG and evalH are f(r), r g(r) and r h(r) of this server's points |
| Checkers.Checker.CorShareFn | server.h:242-253 | The reduced d and e that, with this server's a and b added, give back its f(r) and r g(r) |
| Checkers.Checker.OutShare | server.h:255-298 | The randomly weighted sum of mulCheck and all result_zero wires |
| Checkers.RandSum | server.h:300-316 | Adds the weighted entries to the initial value and reduces once |
| Snip.MulCheckValue | server.h:259-281 | mulCheck is d e (server 0 only) + d b + e a + c - r h, whatever the order of reductions |
| Snip.MulChecksAdd | server.h:255-281 | The two mulChecks add to r (f g - h) + c - a b of the combined shares |
| SnipTheorems.HonestProduct | client.h:60-73 | With honest points the combined h is f g on all 2N-th roots, unused cells included |
| SnipTheorems.ProductEverywhere | server.h:209-240 | If h = f g on all 2N-th roots then h = f g at every point |
| SnipTheorems.HonestMulChecksCancel | server.h:209-281 | For an honest packet the two mulChecks cancel at every point, roots and 0 included |
| SnipTheorems.Completeness | server.h:209-326 | For every accepted input, every split, every f(0), g(0), every point and every shared coefficients the two outputs cancel |
| SnipTheorems.BadPointsBounded | server.h:209-281 | If h differs from f g at some 2N-th root, at most 2N points make r (f g - h) + c - a b vanish |
| SnipSoundness.SnipBound | server.h:209-281 | Whatever the packets and triple: if a combined multiplication gate is wrong, at most 2N points let the mulChecks cancel |
| SnipSoundness.CombinedEvaluation | circuit.h:158-191 | If all combined multiplication gates are right, the combined wires are the circuit's evaluation of the combined input |
| SnipSoundness.Soundness | server.h:209-326 | If the circuit rejects the combined input and all result_zero shares cancel, at most 2N points let the mulChecks cancel |
| SnipSoundness.OneCoefficientPasses | server.h:300-316 | If some checked entry is not 0, at most one value of its coefficient lets the weighted sum vanish |
| VerdictSoundness.FewPointsVanish | server.h:209-326 | If the circuit rejects the combined input, at most 2N points make every entry of the combined check vector vanish, whatever the packets |
| VerdictSoundness.VerdictIsSum | server.h:283-326 | A submission is accepted if and only if the coefficients, applied to the combined check vector, give 0 |
| VerdictSoundness.OneVectorAccepted | server.h:283-326 | Where not every entry vanishes, some entry i is not 0 and any two accepted coefficient vectors that differ at most at i are equal |
| VerdictSoundness.DecidedIsAccepted | server.cpp:214-254 | The verdict of two checkers that are ready for a client is acceptance in this sense |
| SoundnessError.AcceptedVectors | server.h:283-326 | At a point where some entry is not 0, at most p^z of the p^(z+1) reduced coefficient vectors are accepted, for z zero gates |
| SoundnessError.AcceptedDraws | server.h:209-326 | If the circuit rejects the combined input, at most (2N + 1) p^(z+1) of the p^(z+2) draws of a point and coefficients accept it, whatever the packets |
| Verdicts.SubmissionUnique | server.cpp:214-219 | What the client sent determines the submission the servers check, wires included, whatever is drawn |
| Verdicts.VerdictIsDraw | server.cpp:214-254 | For any client the verdict of its two checkers is whether the draw of point and coefficients accepts that submission |
| Verdicts.RejectedIsRare | server.h:209-326 | A submission whose combined input the circuit rejects is accepted by at most (2N + 1) p^(z+1) draws |
| Servers.TablesAreDomainFor | constants.cpp:48-79 | The tables for a size are determined by the size |
| Servers.Server.GetPrecomp | server.cpp:138-148 | Returns the stored entry or a new one, ready for this size at the current point |
| Servers.Server.Refresh | server.cpp:2112-2118 | Every stored entry becomes ready at the new point; the counter restarts |
| Servers.Server.MaybeRefresh | server.cpp:2112-2118 | Refreshes only above the threshold |
| Servers.Server.PrepareBatch | server.cpp:208-216 | Tables and precompute match this batch's size and the counter grows by the batch |
| Validation.BuildCheckers | server.cpp:214-219 | All checkers of one server hold the imported wires and evaluations of their own client |
| Validation.SharesDecide | server.cpp:221-254 | The verdict is whether the weighted check vectors of both servers cancel |
| Validation.HonestDecided | server.cpp:194-271 | An honest submission is accepted |
| Validation.ClientIsHonest | client.h:14-95 | What the prover makes from an accepted evaluation is an honest submission |
| Sessions.CheckBatch | server.cpp:214-254 | Every verdict of the batch follows from the two checkers of that client; honest clients are accepted |
| Sessions.Verifiers.MaybeRefresh | server.cpp:2112-2118 | Both servers refresh together or not at all and stay at the same point |
| Sessions.Verifiers.Process | server.cpp:2112-2118 | One event on both servers: above a million uses a tick moves the point and restarts the counter, a batch adds its size and stores the precompute of its size |
| Sessions.Verifiers.Run | server.cpp:138-148 | Over every sequence of batches and refreshes: point and counter of both servers are the fold of the events, exactly the sizes prepared for are stored, and every entry is ready at the current point |
| Sessions.Verifiers.ValidateSnips | server.cpp:196-271 | One verdict for each client, decided at the shared point; both servers stay coherent and in step |
| Words.LowBitsSplit | ot.cpp:140-143 | Shifting and taking remainders splits a number into its high part and its low bits |
| Words.XorSharesRecombine | client.cpp:1070-1078 | The XOR of the two halves of a sharing is the shared value, cut to the width |
| Words.BitOfXor | client.cpp:1070-1078 | Bit k of the XOR of two words is the XOR of their bits k |
| Words.SplitWord | client.cpp:1070-1078 | A random word below 2^bits and its XOR with the value: both pass the size test and are a sharing of the value |
| Ot.BitConverted | ot.cpp:141-157 | One bit: the sender's and receiver's sums grow by a sharing of the XOR of the two bits |
| Ot.ValueConverted | ot.cpp:139-161 | All bits of a value: the two sums are shares of the XOR, cut to the width |
| Ot.SendRow | ot.cpp:124-161 | Row i fills its own cells with messages and sums each value separately |
| Ot.IntsumSender | ot.cpp:104-171 | Messages and results of all rows, with ragged widths |
| Ot.IntsumChoices | ot.cpp:186-196 | Choice bits of all rows in the sender's order |
| Ot.IntsumReceiver | ot.cpp:203-217 | Results of all rows from the received messages |
| Ot.IntsumOt | ot.cpp:104-217 | Per value: the results are shares of the XOR cut to its width, mod 2^64 or mod `mod` when the width fits; invalid rows give 0 on both sides |
| Ot.ConversionExact | ot.cpp:104-217 | For every odd modulus and every width up to 64: right for all shares and all randomness if and only if the width is 0, or 2^(bits-1) <= mod and 2 mod + 2^(bits-1) <= 2^64 |
| Ot.ShippedModulusOverflows | constants.h:63 | With the shipped modulus every width from 1 to 64 has a failing input |
| BitsumOt.BitsumSender | ot.cpp:56-86 | For any `mod`: each accepted client offers its random message and that message plus 1 - 2 share, others offer 0; the sum keeps the source's wrap-around and reductions |
| BitsumOt.BitsumReceiver | ot.cpp:88-102 | The sum of the received messages, reduced after each when `mod` is given |
| BitsumOt.NativeCounts | ot.cpp:56-102 | With `mod == 0` the two sums always add to the number of accepted clients whose bit is 1 |
| BitsumOt.BitsumCounts | ot.cpp:56-102 | With any `mod` the two sums add to that number minus 2^64 times the wraps of the offered messages |
| BitsumOt.OddCountsExact | ot.cpp:56-102 | With an odd `mod` a run counts right if and only if its number of wraps is 0 mod `mod` |
| BitsumOt.OddAlwaysExact | ot.cpp:56-102 | With an odd `mod` the count is right for all shares and randomness only for an empty batch |
| KeyMatch.ReceiveShares | server.cpp:306-311 | Every key is kept once, with what was sent first |
| KeyMatch.FirstCounts | server.cpp:306-311 | A key is in the map if and only if somebody sent it, with the first value sent under it |
| KeyMatch.LookUp | server.cpp:345-359 | Each of server 1's keys is valid exactly when server 0 has it; the count of valid keys is the number of common keys |
| KeyMatch.ReceivedAll | server.cpp:1777-1789 | Clients with distinct keys are all in the map, each with its own share |
| KeyMatch.OrderOfClients | server.cpp:1806-1812 | Whatever order a server lists its keys in, it is a permutation of the clients and of what they hold |
| BitSum.CountIsSize | server.cpp:320-379 | The number of accepted ones in server 1's order is the number of common keys whose shares differ, for any order |
| BitSum.CountBits | server.cpp:297-379 | The whole operation on any two lists of submissions: no answer below half of the expected clients, else exactly the number of common clients whose bit is 1 |
| BoolOt.GenBooleanBeaverTriples | ot.cpp:220-268 | m pairs that reconstruct a, b and a AND b |
| DaBits.MakeLocalDaBit | share.cpp:66-100 | The pair is valid if and only if p is odd, whatever is drawn |
| DaBits.GenerateDaBit | correlated.cpp:347-387 | n pairs, all valid when 2 mod + 1 < 2^64 |
| DaBits.GeneratedExact | correlated.cpp:363-381 | Per run: for an odd modulus a pair is valid if and only if neither server's 64-bit sum overflows |
| DaBits.GenerationExact | correlated.cpp:347-387 | For an odd modulus all outcomes are valid if and only if 2 mod + 1 < 2^64 |
| Correlated.SoundIsExact | correlated.cpp:30-36 | For an odd modulus the condition under which the store's pairs are claimed valid holds exactly when every generated outcome is valid, and always for pairs made locally |
| Correlated.CorrelatedStores.AddDaBits | correlated.cpp:24-58 | n pairs are appended to both stores in one round, lazily or by transfer |
| Correlated.CorrelatedStores.CheckDaBits | correlated.cpp:64-66 | Both servers generate or neither does; afterwards at least n are stored |
| Correlated.CorrelatedStores.GetDaBit | correlated.cpp:75-80 | Hands out the next unused pair of the common history, with no generation while the store is not empty |
| Correlated.CorrelatedStores.MaybeUpdate | correlated.cpp:88-106 | Below half a batch two batches are added, else nothing changes |
| Correlated.CorrelatedStores.AddBoolTriples | correlated.cpp:12-22 | At least a batch of valid triples is appended to both stores |
| Correlated.CorrelatedStores.GetBoolTriple | correlated.cpp:68-73 | Hands out the next unused triple pair |
| Correlated.CorrelatedStores.MultiplyBoolShares | correlated.cpp:121-167 | XOR shares of every product, one triple each, at most one generation round |
| Correlated.CorrelatedStores.B2aDaBitSingle | correlated.cpp:221-266 | Additive shares of every XORed bit, one daBit each, at most one generation round |
| StoreRuns.Run | correlated.cpp:12-106 | Over every sequence of matching calls: stocks and generation rounds are the fold of the calls, every handed-out pair, conversion and product is right, and each is made with its own positions of the common history |
| StoreRuns.Disjoint | correlated.cpp:60-80 | The positions of a call end before those of every later call begin, so no daBit and no triple is used twice |
| StoreRuns.NoneGenerated | correlated.cpp:60-80 | While the stock lasts no call generates anything, so after one check for all of them no conversion or product is interrupted |
| Conversion.RecombinedShares | correlated.cpp:289-297 | Shares of bits, weighted by powers of two, are shares of the XORed value |
| Conversion.B2aDaBitMulti | correlated.cpp:268-303 | Additive shares of every XORed value cut to its own width, one generation round at most |
| Conversion.B2aOt | correlated.cpp:306-342 | The same for the transfer-based conversion of a flat array |
| Conversion.ShareConvert | server.cpp:152-192 | Whichever conversion is chosen, every client's values are shared mod p; transfers use no daBit, the other way exactly one for each bit in at most one round |
| Conversion.ConvertBothWays | server.cpp:169-185 | Each conversion is right under its own condition, only one of them uses daBits, and where both are sound they open to the same numbers for every client |
| Conversion.ClientValueConverted | server.cpp:152-192 | The opened number is the value the client split, if it is below p and fits its width |
| Conversion.MakeLocalEdaBit | share.cpp:103-130 | For odd p the arithmetic shares add to the number spelled by the shared bits |
| BinaryAdder.PrepareRound | correlated.cpp:192-200 | Each active lane puts its operands at its own place of the compacted batch and appends its sum bit |
| BinaryAdder.ApplyCarries | correlated.cpp:204-210 | Each active lane takes its own product out of the batch |
| BinaryAdder.FullAdder | correlated.cpp:194-208 | One bit of a lane: sum and carry of the opened bits |
| BinaryAdder.AddBinaryShares | correlated.cpp:172-219 | Every lane opens to x + y with its carry, at its own width, using exactly one triple per bit and at most one generation round |
| Aggregation.Accumulate | server.cpp:273-295 | Each total is the sum of its column over the accepted rows, mod p; the count is the number of accepted rows |
| Aggregation.Aggregate | server.cpp:1984-1988 | The two servers' totals add to the sum of the opened values, mod p |
| Aggregation.TotalExact | server.cpp:273-295 | A sum below p is recovered exactly |
| Hashes.WidthOf | hash.h:46-49 | The smallest number of bits, at least one, whose values cover the columns |
| Hashes.HashStore.constructor | hash.h:38-75 | Draws d polynomials with constant terms below w and the other coefficients below 2^l_bits |
| Hashes.HashStore.Eval | hash.cpp:7-20 | The polynomial without its constant term at x mod 2^32, reduced mod 2^l_bits, shifted right by l_bits - w_bits, plus the constant term, mod w |
| Hashes.HashStore.TopBits | hash.cpp:15-16 | With enough input bits what is left after the shift has w_bits bits |
| Hashes.ConstantSpreads | hash.cpp:18-19 | For any tail each column is reached by exactly one constant term below w |
| Hashes.MakeStores | server.cpp:1996-1998 | One store for each layer, with one input bit less from layer to layer |
| Hashes.StoresInRange | server.cpp:1996-1998 | The hash stores of a run form hash functions into the columns, as the searches require |
| Sketches.CellIsIndex | client.cpp:1684 | The cell of layer k, row j, column m has the index the source computes |
| Sketches.FreqCellIsIndex | client.cpp:1689 | The cell of the shortest prefix x has the index the source computes |
| Sketches.MarkLayer | client.cpp:1677-1686 | Each row of the layer marks the hash of the value's prefix and nothing else |
| Sketches.EncodeValue | client.cpp:1673-1689 | The shares differ in exactly one cell of each row and in the cell of the shortest prefix |
| Sketches.EncodeSketch | client.cpp:1549-1557 | The shares of a count-min client differ in exactly one cell of each row |
| OneHotCheck.RowChecks | server.cpp:1905-1926 | Parity and sum of every row over all clients, with or without a last row of its own length |
| OneHotCheck.Verdict | server.cpp:1933-1947 | Exactly the verdict of the last row, for the parities and for the sums; false when there is no row |
| OneHotCheck.EarlierRowIgnored | server.cpp:1933-1947 | Two rows for three clients of which the first marks nothing: the batch is accepted |
| OneHotCheck.VerdictMeansAllRows | server.cpp:1933-1947 | Acceptance implies that every row passes if and only if there is at most one row or the sums cannot reach the number of clients |
| OneHotCheck.RowOpened | server.cpp:1933-1947 | The two parities differ exactly when the row's opened total is odd, and the two sums add to that total mod p |
| Heavy.EstimateChildren | server.cpp:2018-2033 | For both children: at most the number of inputs and every estimate, and equal to one of these; an estimate is the total in cell i d w + j w + hash, as an unsigned int |
| Heavy.FirstLayer | server.cpp:2004-2011 | Exactly the shortest prefixes whose count reaches the threshold, in order |
| Heavy.NextLayer | server.cpp:2017-2045 | Exactly the children of the survivors for which the number of inputs and every estimate reach the threshold, in strictly increasing order |
| Heavy.Search | server.cpp:2001-2046 | Exactly the values whose first-layer total and, in every layer, the number of inputs and every estimate of their prefix reach the threshold, in strictly increasing order |
| Heavy.EstimateCovers | server.cpp:2021-2033 | No estimate is below the number of values with that prefix, for any hash into the columns |
| Heavy.HeavyPrefixPasses | server.cpp:2018-2042 | A prefix whose true count reaches the threshold passes its layer |
| Heavy.HeavyPrefixSurvives | server.cpp:2001-2046 | After each layer every prefix whose true count reaches the threshold is still there |
| Heavy.HeavyValueSurvives | server.cpp:2001-2050 | Every value sent often enough survives all layers |
| Heavy.ReportedIsCounted | server.cpp:2001-2050 | Behind a reported value every cell of every prefix counts enough clients |
| Heavy.ReportedIsHeavy | server.cpp:2001-2050 | A reported value that collides with no other client's in some row of the last layer was sent often enough |
| Heavy.Query | server.cpp:1725-1734 | At most the number of inputs and each of the d cells of the value, as an int, and equal to one of these |
| Heavy.QueryCountMin | server.cpp:1717-1744 | Exactly the queried values for which the number of inputs and each of their d cells reach the threshold |
| Heavy.QueryCovers | server.cpp:1721-1744 | No cell of a value is below the number of clients that sent it |
| Heavy.ReportedOccurs | server.cpp:1721-1744 | A reported value that collides with no other client's in some row was sent often enough |
| HeavyRun.EncodeClients | client.cpp:1663-1695 | Every client's cells hold its own encoding |
| HeavyRun.TotalsAreSketch | server.cpp:1964-1988 | The opened totals count, in every cell, the clients that marked it |
| SketchBatch.MatchRows | server.cpp:1802-1893 | Place i of both flat arrays holds what was sent under server 1's i-th key, zeros where server 0 does not know it |
| SketchBatch.CheckBatch | server.cpp:1904-1947 | For any shares: accepted if and only if the last row's total has the parity of the number of submissions and equals it mod p |
| SketchBatch.MarkedPasses | server.cpp:1904-1947 | Rows that open to numbers adding to 1 for every client pass, if all submissions are there |
| SketchBatch.Serve | server.cpp:1775-1988 | For any submissions: matching, conversion in at most one generation round made ahead, the exact verdict, and totals that are the opened sums over the accepted batch |
| HeavyRun.HeavyBatchMarked | client.cpp:1663-1695 | Every row that honest clients encode opens to numbers adding to 1 |
| HeavyRun.HeavyServers | server.cpp:1754-2063 | For any submissions: no answer exactly when fewer than half are counted, else exactly the values all of whose cells reach the threshold |
| HeavyRun.HeavyOp | server.cpp:1754-2063 | Clients to answer, with honest clients under their own keys in whatever order server 1 lists them: there is an answer, the totals are the sketch, every value held by a fraction t of the clients is found, and no other value that is free of collisions in some row |
| CountMinRun.CountMinServers | server.cpp:1495-1752 | For any submissions: no answer exactly when fewer than half are counted, else exactly the queried values all of whose cells reach the threshold |
| CountMinRun.CountMinOp | server.cpp:1495-1752 | Clients to answer, with honest clients in any order: the batch is accepted if and only if there is a row, no heavy value among those queried is missed, and no other is reported that is free of collisions in some row |
| LinReg.EncodeLinReg | client.cpp:1070-1127 | Features, target, products of features and products with the target, in the circuit's order |
| LinReg.EncodingAccepted | circuit.h:241-261 | An honest client's fields are accepted by the regression circuit |
| LinReg.AccumulateMoments | server.cpp:1195-1225 | Field totals go to the cells of x_accum and y_accum that the solver expects |
| LinReg.BuildMatrices | circuit.h:283-301 | Entry (i, j) of the symmetric matrix is the accumulated product of components i and j |
| LinReg.ColumnIsMoment | server.cpp:1196-1225 | A column over accepted clients is the moment of its two components, mod p |
| LinReg.LinRegMatrices | server.cpp:1184-1225 | Whatever the fields are, X and Y hold the count and the column totals mod p of the fields over the valid clients; if these are correct, the sums of (1, x)(1, x)^T and (1, x) y where they are below p and 2^63 |
| LinRegClients.FieldBelow | server.cpp:966-969 | Every field of an honest encoding is below the width its conversion uses |
| LinRegClients.EncodeClient | client.cpp:1062-1135 | One client: encoded fields, XOR halves that pass the size test, and packets that prove the circuit accepts the fields |
| LinRegMoments.RoomyIsExact | client.cpp:1186-1192 | All moments of all n clients with fields of the given width are below p and 2^63 if and only if n and n times the largest product (2^bits - 1)^2 are (with no feature, n times the largest target) |
| LinRegMoments.ModulusTestExact | client.cpp:1189 | The client's test of the modulus implies n 2^(2 bits) <= p for every modulus if and only if that product fits a 64-bit word |
| LinRegMoments.ModulusTestWraps | client.cpp:1189 | With 31 bits and four clients every 64-bit modulus passes the test and fails the bound |
| LinRegMoments.TestGivesRoom | client.cpp:1189 | Where the test gives its bound, the moments are exact if and only if they fit a signed word |
| LinRegMoments.MomentsPermuted | server.cpp:1044-1050 | The moments do not depend on the order of the clients |
| LinRegServers.ReceiveEntries | server.cpp:978-1018 | The first message under each key whose words all pass the size test is kept |
| LinRegServers.DaBitsNeeded | server.cpp:1024-1027 | The daBits requested ahead are exactly those the conversion of all fields uses |
| LinRegServers.RowsShared | server.cpp:1074-1075 | The converted words are shares mod p of what the clients' two halves open to, cut to their widths |
| LinRegServers.SizedOpenWhole | server.cpp:991-1004 | Words that pass the size test open to their whole XOR: the conversion cuts nothing off |
| LinRegServers.WrongIsRejected | circuit.h:241-261 | A client whose words open to fields that are not the products they should be has a submission the circuit rejects |
| LinRegServers.ValidateClients | server.cpp:1078-1091 | For any packets and any coefficients each verdict is whether the draw accepts the client's submission; a client whose packets prove what its words open to is accepted |
| LinRegServers.ServeRegression | server.cpp:944-1240 | For any submissions: a client is valid exactly when both servers know it and the draw accepts its submission; wrong fields are accepted by few draws; no answer exactly when fewer than half are valid; else the column totals of the valid clients' opened fields, and their moments if the fields are correct |
| LinRegRun.LinRegOp | server.cpp:944-1240 | Clients to matrices, with honest clients in any order: all are accepted, there is an answer, and where the moments are exact X and Y are those of the clients' own x and y |

## Left out

- Sockets, `fork`, serialisation, timing, printing, argument parsing, `main`, and memory management.
- FLINT, the transfer library and matrix inversion: modelled by what they are specified to return. `InvMod` is computed by the extended Euclidean algorithm; its value for a number without inverse is never used.
- Secrecy, distributions, independence of hashes and false-positive rates: the searches work for any function into the columns, which `Hashes.StoresInRange` shows the program's hashes to be.
- Floating-point results (variance, deviation, coefficients, the rounding of the threshold): the model stops at integer totals and matrices and uses a real threshold.
- The operations AND, OR, MAX, MIN and FREQ, whose remaining code repeats modelled parts, and `int_sum`, which converts 10000 values for each input although it stores one (`server.cpp:385`, `server.cpp:430`).
- Gates name their parents by index and tree nodes are values, so aliasing of gates or of tree nodes is not modelled; the batch precompute is built once and never changed, as in the source.
- `he_triples.cpp`, `net_share.cpp` and the commented-out polynomial routines.
- SharePolynomials: requires the tables to be empty or of this circuit's size, because `client.h:41` builds them only when there are none.
- CountMinOp: a run of honest clients with distinct keys; fewer than 2^31 of them, because the query counts in an `int`.
- HeavyOp: a run of honest clients with distinct keys; it assumes fewer clients than p and 2^32, so that the totals are the counts; the search itself is characterised for any totals.
- LinRegOp: a run of honest clients with distinct keys and at least one client, because the source sizes its batch by the first circuit.
- Conclude: the coefficients that both servers draw from the shared seed are a parameter here and in ServeRegression.
- HashStore: 2^l_bits is exact here; `1ULL << l_bits` is undefined from 64 bits on.
- GetSi: a total that does not fit a signed word is undefined in the source and arbitrary here; only smaller sums are claimed.
- B2aDaBitMulti: requires widths of at most 64, because `1ULL << j` is undefined beyond.
- Run: in `Sessions`, a refresh draws any reduced point; how often the loop refreshes is decided by the counter alone.
