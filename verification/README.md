# Verified models of the patches synthesizer

`patches` is a live-patching synthesizer: a patch language with an include loader and desugaring passes, an engine that
runs modules over a shared pool of cable buffers, and signal-processing kernels. This project models the parts of it
whose correctness is not visible from any one function, and proves what they are for. Samples are exact reals; `u32`,
`u8` and ring indices are bounded or modular integers.

Verify with `dafny verify dfyconfig.toml`, or all files together on the command line.

| files | what they cover |
|---|---|
| `Complex`, `FftSpec`, `FftTheory`, `Fft` | the packed real FFT, in place, against the defining sum, and its inverse |
| `Ast`, `StereoDesugar`, `StereoSides`, `StereoNodes`, `StereoRewrite`, `StereoFile` | stereo desugaring: cables keep their per-channel meaning, and each instance gets the settings of its side |
| `Taps`, `TapDesugar`, `HostControls` | tap and host-control desugaring: both sides agree, slots and order |
| `Ticks`, `CablePool` | the cable pool and a tick's independence of the order of updates and modules |
| `CableMaps` | the algebra of cable segments, and when composing a chain is exact |
| `Paths`, `Includes`, `Loader` | the include walk against reachability and cycles |
| `Tracker` | the tracker's back-patching row build against a look-ahead specification |
| `Ring`, `PeakWindow` | the sliding maximum in a ring |
| `StateFormat`, `StateCodec`, `StateStream` | the saved-state format and its streams |
| `Halfband`, `Interpolator`, `Decimator` | halfband filtering against direct convolution |
| `Playback`, `PlaybackTrace`, `Callback` | the audio callback's scheduling and its independence of host buffer sizes |
| `MidiIo` | burst transport of MIDI events |
| `MultistageEnv`, `HyperSaw` | an envelope's bounded time to rest; fixed-point saws |
| `Wrappers`, `Powers`, `Reals` | shared datatypes and arithmetic |

How to read it. Code that works in place is a class or a method over arrays; each such method is proved equal to a
function of its inputs or its old state, and the lemmas are about those functions. Where a promise does not hold of the
code on every input, the code is modelled as it is, an input that fails is given, and the exact condition is proved:

| condition | input that fails |
|---|---|
| `StereoFile.MeaningPreserved` | `StereoFile.IndexIsLost` |
| `CableMaps.FoldDenotes`, `CableMaps.BracketingDenotes`, `CableMaps.ComposeAssociative` | `CableMaps.UncrossedRange` |
| `StateCodec.RoundTripExact` | `StateCodec.RoundTripFails` |
| `TapDesugar.ScalesSurvive` | `TapDesugar.SecondScaleLost` |
| `Callback.FramesFit` | `Callback.SixChannels` |

Assumptions, each a parameter of the model:

- The root of unity of the FFT is any complex number of modulus one whose (n/4)-th power is -i; sine and cosine supply
  one for every size. That the (n/2)-th power is -1 alone is not enough: `FftTheory.SmallestRoot` gives a number that
  has it and would conjugate the bin n/4.
- The envelope's exponential is an arbitrary function; `MultistageEnv.StageShape` says where it is applied.
- A module's outputs and new state are any function of its state and the values it reads; it reads before it writes.
- The processor behind the audio callback is any function from what was done to it so far to its next output; the
  input queue is any function from pop number to result.
- Text decoding is any predicate on byte strings.
- The host's stream may split reads and writes in any way, stall or fail; each theorem says what it needs of the host.
- Names written by the user contain no `~`, which the grammar reserves; host-control names are declared once, which
  validation checks.

Where the code and its comments differ, the code is modelled:

- `patches-dsl/src/loader.rs` calls the include chain of an error innermost last; it is innermost first.
- `patches-core/src/tracker.rs:435-438` says that the end of the run reports a slide left open at a rest; the rest
  resets the state, the slide keeps its placeholder close, and nothing is reported.
- `patches-dsp/src/interpolator.rs:86-88` puts tap t at distance 2t + 1 from the centre; it is at distance 15 - 2t.
- `patches-dsl/src/flat.rs:55-58` says that downstream code treats a crossed clip as always clipped; reading through it
  clamps to crossed bounds, which panics.
- `patches-core/src/modules/module.rs:420-421` says that periodic updates see the previous sample; through a fused cable
  on a cycle slot they see the one before it (`Ticks.UpdateReads`).
- `patches-engine/src/decimator.rs` says the centre tap is fixed at 0.5; it is whatever the filter was built with.

## Model

| member | source | states |
|---|---|---|
| Fft.RealPackedFft.constructor | patches-dsp/src/fft.rs:65-117 | for every power of two n >= 4, the tables hold bit-reversed indices, one contiguous run of twiddles per stage, and the powers of the root |
| FftTheory.RevInvolution | patches-dsp/src/fft.rs:76-81 | bit reversal is an involution, so one swap per unordered pair permutes the buffer |
| Fft.RealPackedFft.BitReverse | patches-dsp/src/fft.rs:176-188 | in place, the complex value at i becomes the one that was at the bit reversal of i, for every i |
| FftSpec.StageZero | patches-dsp/src/fft.rs:176-188 | the bit-reversed input is stage 0 of the decimation: transforms of single elements |
| FftSpec.ButterflyStep | patches-dsp/src/fft.rs:193-224 | one butterfly turns the two half-block transforms of stage s into the block transform of stage s + 1, upper and lower half |
| Fft.RealPackedFft.Butterfly | patches-dsp/src/fft.rs:206-219 | in place on four reals: (a + w b, a - w b), every other real untouched |
| Fft.RealPackedFft.ButterflyStage | patches-dsp/src/fft.rs:193-224 | a whole stage, group by group and pair by pair, carries the buffer from stage s - 1 to stage s |
| FftSpec.StageLast | patches-dsp/src/fft.rs:193-224 | the last stage holds exactly the DFT of the input |
| FftSpec.DftIsEval | patches-dsp/src/fft.rs:158-174 | the defining sum of x[j] w^(jk) equals evaluating the input as a polynomial at w^k: the bridge from the transform to its definition |
| Fft.RealPackedFft.ComplexFft | patches-dsp/src/fft.rs:158-174 | for every buffer, in place, the result is the DFT by its defining sum, with the root or its conjugate for the inverse direction |
| FftTheory.PostIsRealDft | patches-dsp/src/fft.rs:511-551 | post-processing the half-size spectrum gives bin k of the real DFT (the defining sum over all n samples), for every k below n/2 |
| FftTheory.EndBins | patches-dsp/src/fft.rs:511-521 | DC and Nyquist bins from the packed slot 0 |
| FftTheory.PostAllIsPacked | patches-dsp/src/fft.rs:511-551 | post-processing the transform of the paired samples is exactly the packed real DFT |
| FftTheory.PackedSpelled | patches-dsp/src/fft.rs:123-127 | the packed layout, slot by slot: the real bins 0 and n/2 first, then real and imaginary part of each bin between |
| FftTheory.PreAllUndoesPostAll | patches-dsp/src/fft.rs:511-593 | pre- and post-processing undo each other, both ways, on every conjugate pair, the midpoint and slot 0 |
| FftTheory.Midpoint | patches-dsp/src/fft.rs:518-520 | at the midpoint the twiddle is -i, and post- and pre-processing both come down to the conjugation the code does |
| FftTheory.SmallestRoot | patches-dsp/src/fft.rs:83-113 | -i is a root for n = 4; i has the same half-size power and is not |
| Fft.RealPackedFft.RealPostprocess | patches-dsp/src/fft.rs:511-551 | the in-place loop over conjugate pairs computes the post-processing of the whole spectrum |
| Fft.RealPackedFft.RealPreprocess | patches-dsp/src/fft.rs:553-593 | the in-place loop computes the pre-processing of the whole packed spectrum |
| FftTheory.GeometricZero | patches-dsp/src/fft.rs:137-145 | the powers of a non-trivial root of unity sum to zero |
| FftTheory.Inversion | patches-dsp/src/fft.rs:137-145 | the conjugate transform of the transform is n times the input |
| FftTheory.InverseOfForward | patches-dsp/src/fft.rs:137-145 | on values: the scaled inverse of the packed spectrum of any real buffer is that buffer |
| FftTheory.InverseIsSignal | patches-dsp/src/fft.rs:137-145 | on values: the packed spectrum of what the inverse computes is the buffer it was given |
| FftTheory.ForwardOfInverse | patches-dsp/src/fft.rs:123-145 | on values: the packed spectrum of the inverse of any buffer is that buffer |
| Fft.RealPackedFft.Forward | patches-dsp/src/fft.rs:123-127 | for every real buffer, leaves exactly the packed DFT: X[0] and X[n/2] in slots 0 and 1, Re and Im of X[k] in 2k and 2k + 1, X being the defining sum |
| Fft.RealPackedFft.Inverse | patches-dsp/src/fft.rs:137-145 | for every buffer, leaves the real signal whose packed DFT the buffer was: the scaled conjugate transform of the pre-processed bins |
| Fft.RealPackedFft.ForwardThenInverse | patches-dsp/src/fft.rs:123-145 | inverse after forward is the identity on every buffer |
| Fft.RealPackedFft.InverseThenForward | patches-dsp/src/fft.rs:123-145 | forward after inverse is the identity on every buffer |
| StereoFile.DesugarStereo | patches-dsl/src/stereo_desugar.rs:56-125 | fails exactly on a stereo declaration in a template, a multi-channel stereo declaration, a name clash of a channel instance, or a whole-bus cable into one side, in the order of the passes; otherwise the output meets `Desugared`: in the place of each stereo declaration its instances `__l` and `__r`, in this order, each with the shared settings that its side does not override and then every `[l]` or `@l` (`[r]` or `@r`) setting as a plain one, in order; every other declaration as it was; then exactly the splitters and joiners that the cables need, one for each port, declared with its type and fed by its own cables and nothing else; every generated name that a cable uses declared; no cable left on a stereo module; other statements in order |
| StereoFile.MeaningPreserved | patches-dsl/src/stereo_desugar.rs:216-372 | looking through the splitters and joiners that it declares and feeds, the output has exactly the per-channel edges the stereo source denotes, scales and directions included, if and only if every cable is plain (no index other than a channel selector); a name that is not declared as a node, or not fed as one, leaves a dangling edge and no meaning |
| StereoDesugar.BusForms | patches-dsl/src/stereo_desugar.rs:245-345 | what a cable into a whole stereo input denotes, for each form of source: two edges, one into the port of the `__l` instance and one into that of `__r`, from the channels of a mono port, from the two instances of a bus, or from the channels of one instance |
| StereoDesugar.SingleForms | patches-dsl/src/stereo_desugar.rs:216-372 | what every other cable denotes: one edge to the port, or to the port of the instance of its side, from the port, from the two instances joined, or from the instance of its side |
| StereoFile.IndexIsLost | patches-dsl/src/stereo_desugar.rs:634-641 | a cable with an index for which the two differ: the index is dropped |
| StereoFile.NamesStayDistinct | patches-dsl/src/stereo_desugar.rs:445-470 | module names are still pairwise distinct after splitting and generation |
| StereoFile.HasClash | patches-dsl/src/stereo_desugar.rs:75-98 | true exactly when a stereo declaration's channel name is already a module name |
| StereoFile.ClashSpelled | patches-dsl/src/stereo_desugar.rs:93-112 | a clash, spelled out: a stereo declaration `x` beside a module named `x__l` or `x__r` |
| StereoFile.BusToSideSpelled | patches-dsl/src/stereo_desugar.rs:243-258 | the rejected cable, spelled out: from a stereo module with no side to a stereo module with side `l` or `r` |
| StereoFile.LastDeclCounts | patches-dsl/src/stereo_desugar.rs:81-91 | of several stereo declarations of one name the last counts |
| StereoFile.CheckSingleChannel | patches-dsl/src/stereo_desugar.rs:132-153 | accepts exactly the declarations without a multi-channel argument |
| StereoFile.MultiChannelSpelled | patches-dsl/src/stereo_desugar.rs:127-153 | a declaration is multi-channel exactly if it has the named argument `channels` with an integer above one |
| StereoDesugar.SideParamsMeaning | patches-dsl/src/stereo_desugar.rs:472-546 | a split parameter list sets, for the left instance, the `l` overrides of a key if there are any and its shared settings otherwise, and the same on the right with `r` |
| StereoSides.SplitParams | patches-dsl/src/stereo_desugar.rs:472-546 | the two loops give each side the entries addressed to neither side whose key that side does not set, in order, and then each setting written for that side, as `[l]` or in an `@l` block (`[r]`, `@r`), in order and with its index gone: nothing else, and nothing twice |
| StereoSides.SplitStereoDecl | patches-dsl/src/stereo_desugar.rs:445-470 | the mono instances: `__l` with the left settings and `__r` with the right ones, type and call block kept |
| StereoSides.SideParamsIs | patches-dsl/src/stereo_desugar.rs:472-546 | the lists of the pass are, entry by entry, what the declaration gives to `l` and to `r` |
| StereoSides.SplitDeclsSplit | patches-dsl/src/stereo_desugar.rs:189-214 | each stereo declaration becomes its two instances in its place, every other one stays as it was |
| StereoDesugar.ErasedIsExact | patches-dsl/src/stereo_desugar.rs:592-641 | rebuilding ports by name changes nothing exactly when no cable loses an index or a label |
| StereoDesugar.NextNamesFresh | patches-dsl/src/stereo_desugar.rs:549-587 | the next numbered splitter and joiner names are unused |
| StereoNodes.ExtendFresh | patches-dsl/src/stereo_desugar.rs:549-587 | a fresh node and its feeds leave everything resolved so far as it was |
| StereoNodes.NodesSpelled | patches-dsl/src/stereo_desugar.rs:549-587 | a splitter is a `StereoSplitter` with one cable, into `in`, from its port; a joiner a `StereoJoiner` with two, `in_left` from the `__l` instance and `in_right` from `__r` |
| StereoNodes.SplitterResolves | patches-dsl/src/stereo_desugar.rs:259-325 | a declared splitter, fed by one cable, carries the left and the right channel of that cable |
| StereoNodes.JoinerResolves | patches-dsl/src/stereo_desugar.rs:326-345 | a declared joiner, fed by one cable a side, carries the two sides joined |
| StereoNodes.AddSplitter | patches-dsl/src/stereo_desugar.rs:549-565 | a fresh splitter keeps the nodes exactly one for each key, each with its type and feeds |
| StereoNodes.AddJoiner | patches-dsl/src/stereo_desugar.rs:567-587 | a fresh joiner does too |
| StereoRewrite.OneNodePerKey | patches-dsl/src/stereo_desugar.rs:157-173 | a port has a splitter or a joiner exactly if some cable needs one, and never two |
| StereoRewrite.RewriteCtx.EnsureSplitter | patches-dsl/src/stereo_desugar.rs:549-565 | one splitter per source port: the one the port has, nothing changed; otherwise a fresh name, declared as a `StereoSplitter` and fed from that port, nothing else changed |
| StereoRewrite.RewriteCtx.EnsureJoiner | patches-dsl/src/stereo_desugar.rs:567-587 | one joiner per stereo port: the one the port has, nothing changed; otherwise a fresh name, declared as a `StereoJoiner` and fed from both channel instances, nothing else changed |
| StereoRewrite.RewriteCtx.TransformConnection | patches-dsl/src/stereo_desugar.rs:216-372 | the emitted cables mean exactly what the source cable denotes over the nodes so far, use only declared ones and touch no stereo module; the keys gain exactly the splitter or joiner the cable needs; a whole bus into one side is the only rejection |
| StereoRewrite.RewriteCtx.TransformBody | patches-dsl/src/stereo_desugar.rs:189-214 | the same for a whole body: it fails exactly on a whole bus into one side, and otherwise meets `Desugared`, with each instance in its place under its own name and with the settings of its side |
| Ticks.RunIsTick | patches-engine/src/execution_state.rs:277-288 | running a valid order gives the one fixed point of the tick equations: each module ran once, on the final values of its fused inputs and the previous values of its delayed ones |
| Ticks.TickUniqueUpTo | patches-engine/src/execution_state.rs:277-288 | the tick equations have one solution |
| Ticks.TickOrderIrrelevant | patches-engine/src/execution_state.rs:277-288 | with one writer per slot, any two orders that respect the fused edges give the same pool and module states after a tick |
| Ticks.RunsOrderIrrelevant | patches-engine/src/execution_state.rs:259-290 | the same over every run of ticks with alternating write index and periodic updates at every interval, even when each tick uses its own orders for updates and modules |
| Ticks.RefreshOrderIrrelevant | patches-engine/src/execution_state.rs:260-272 | the order of the periodic updates of a tick does not matter |
| Ticks.TickPhases | patches-engine/src/execution_state.rs:259-290 | updates come first, from the pool as the last tick left it, and the modules run on the states they leave |
| Ticks.LastWriteStays | patches-core/src/cable_pool.rs:114-124 | of several writes of one module to one cell the last stays |
| Ticks.UpdateReads | patches-core/src/cable_pool.rs:97-110 | a periodic update sees what the producer wrote in the tick before, except through a fused cable on a cycle slot, where it sees the tick before that |
| Ticks.OtherHalfKept | patches-core/src/cable_pool.rs:97-120 | a tick leaves the half it reads delayed values from untouched |
| Ticks.DelayedReadIsPreviousWrite | patches-core/src/cable_pool.rs:97-120 | if the producer writes every tick, a delayed read returns exactly the write of the tick before |
| CablePool.CablePool.WriteRaw | patches-core/src/cable_pool.rs:114-124 | writes one scratch slot, or the write half of one ping-pong pair, and nothing else |
| CablePool.CablePool.ReadMono | patches-core/src/cable_pool.rs:128-143 | the slot's value through the cable map |
| CablePool.CablePool.ReadPoly | patches-core/src/cable_pool.rs:146-159 | all sixteen channels through the map; the unit-map shortcut agrees with the general case |
| CablePool.CablePool.ReadStereo | patches-core/src/cable_pool.rs:181-199 | two channels through the map, a mono source on both |
| CablePool.CablePool.WriteMono | patches-core/src/cable_pool.rs:162-166 | stores a mono value |
| CablePool.CablePool.WritePoly | patches-core/src/cable_pool.rs:168-172 | stores a poly value |
| CablePool.CablePool.WriteStereo | patches-core/src/cable_pool.rs:202-207 | stores a stereo value |
| CablePool.CablePool.RunModule | patches-engine/src/execution_state.rs:282-288 | one module run over the buffers is one `Step` of the value model |
| CablePool.CablePool.UpdateModule | patches-engine/src/execution_state.rs:264-271 | a periodic update changes the state of its module, from the values of its inputs, and no cable |
| CablePool.CablePool.Tick | patches-engine/src/execution_state.rs:259-290 | a tick over the buffers: for a valid order and a list without repeats there is a machine with the old pool, in which each listed module is updated once from its old state and the old cables if the counter is at zero and every other state is the old one, and the result solves the tick equations from it; the tick is also `TickOf`, so the order theorems hold of it; the counter steps around the interval |
| CablePool.CounterIsTick | patches-engine/src/execution_state.rs:273-275 | the counter is the tick number around the interval, so updates are due at its multiples |
| CableMaps.ComposeDenotes | patches-dsl/src/flat.rs:88-102 | the composed map is the composition of the two clamp-after-affine functions, for any sign of gain including zero, if and only if the clip intersection is not empty |
| CableMaps.FoldDenotes | patches-dsl/src/flat.rs:88-102 | folding a chain of well-formed segments denotes applying them one after the other, for every value, if and only if the folded clip is not crossed and is the range of the chain, or the gain is zero and both keep the one value |
| CableMaps.ChainIsOneClip | patches-dsl/src/flat.rs:88-102 | every chain of well-formed segments is its folded gain and offset, clipped once to the range of the chain |
| CableMaps.MeetingChainDenotes | patches-dsl/src/flat.rs:88-102 | folding is exact when each clip meets the range that reaches it, which can be checked along the chain |
| CableMaps.MeetIsRunningValid | patches-dsl/src/flat.rs:88-102 | those clips meet exactly when no running intersection is crossed, and then the folded clip is the range of the chain |
| CableMaps.BracketingDenotes | patches-dsl/src/expand/expander/emit.rs:174-253 | the same for every bracketing of the chain, as template boundaries compose it: exact if and only if its clip is the range of the chain or the constant is kept, in particular when no node is crossed |
| CableMaps.RangeEnds | patches-dsl/src/expand/connection.rs:272-286 | a range lowers to a well-formed segment that takes the ends of its domain to its own ends and never leaves them |
| CableMaps.ComposeAssociative | patches-dsl/src/flat.rs:88-102 | composition is associative if and only if the first pair's clip is not crossed or the third gain is zero |
| CableMaps.IdentityUnit | patches-dsl/src/flat.rs:69-102 | the identity cable is a left unit always, and a right unit exactly when the clip is not crossed |
| CableMaps.ScalarReads | patches-dsl/src/flat.rs:62-71 | a scaled cable multiplies, an unscaled one passes every value on |
| CableMaps.UncrossedRange | patches-dsl/src/flat.rs:88-102 | `uni(2, 3)` and `uni(0, 1)` cross the clip and an unscaled cable uncrosses it: at 0 the folded chain gives 2 and the chain 1, and the three compositions are not associative |
| CableMaps.MeetingNotNeeded | patches-dsl/src/flat.rs:88-102 | with a gain of 0 in place of the unscaled cable the clips still do not meet, and folding is exact |
| Paths.NormalizePath | patches-dsl/src/include_frontier.rs:121-142 | the component loop computes the normal form |
| Paths.NormalizeIdempotent | patches-dsl/src/include_frontier.rs:121-142 | normalising twice is normalising once |
| Paths.NormalizeJoined | patches-dsl/src/include_frontier.rs:121-142 | normalising a joined path may normalise its first part beforehand |
| Paths.NormalizeComponents | patches-dsl/src/include_frontier.rs:121-142 | what each component does: `..` takes back the name before it, `.` nothing, and a name is appended |
| Paths.ParentStays | patches-dsl/src/include_frontier.rs:121-142 | a `..` with nothing to take back stays: at the start, after another one, and after the root |
| Includes.ResolveSpelled | patches-dsl/src/loader.rs:206-211 | where an include is looked for: beside the including file, in the working directory if that file is a bare name, or at its own place if it is rooted; always normalised |
| Includes.ResolveUp | patches-dsl/src/loader.rs:206-211 | an include that begins with `..` is looked for one directory up |
| Includes.ClashIsSameName | patches-dsl/src/loader.rs:274-311 | two files clash exactly if each has a template, or a pattern, or a song of one name; kinds do not clash with each other, and within one file it takes two definitions |
| Includes.IncludeFrontier.WithRoot | patches-dsl/src/include_frontier.rs:69-76 | the root is visited and on the stack |
| Includes.IncludeFrontier.Enter | patches-dsl/src/include_frontier.rs:78-92 | a cycle exactly for a key on the stack, already visited exactly for any other visited key, otherwise pushed |
| Includes.IncludeFrontier.Leave | patches-dsl/src/include_frontier.rs:94-103 | pops the top and keeps it visited |
| Includes.PostOrderAcyclic | patches-dsl/src/loader.rs:196-271 | a list in which every file comes after all it includes rules out a cycle and contains everything reachable |
| Loader.CheckCollision | patches-dsl/src/loader.rs:293-311 | a taken key is reported with its holder, a free one is registered |
| Loader.RegisterNames | patches-dsl/src/loader.rs:274-291 | fails exactly on a key already held by an earlier file or an earlier definition of the same file |
| Loader.TakenIsClash | patches-dsl/src/loader.rs:293-311 | a taken key is two different definitions with one key |
| Loader.StackCycle | patches-dsl/src/loader.rs:214-222 | an include of a file on the stack closes a cycle reachable from the master |
| Loader.ResolveIncludes | patches-dsl/src/loader.rs:196-271 | the walk terminates, keeps its invariant, and on success has finished every file the parent includes, each where `Includes.ResolveSpelled` says; on failure names a real defect with the chain of includes that leads to it |
| Loader.ResolveFresh | patches-dsl/src/loader.rs:225-268 | one new file: read, registered, walked, then merged |
| Loader.GatherSnoc | patches-dsl/src/loader.rs:250-268 | templates, patterns and songs of each further file come behind those of the files before, each in its own list |
| Loader.LoadWith | patches-dsl/src/loader.rs:145-187 | for every finite file map: success exactly means clean and acyclic; on clean files it fails if and only if the reachable graph has a cycle, with a cycle error; every failure names a real defect and a real include chain; on success the dependencies are the reachable paths, each once, master first, and the definitions are the master's, then every other reachable file's once, after those of all files it includes. The edges of the graph are what `Includes.ResolveSpelled` and `Includes.ResolveUp` say |
| Tracker.ResolveStepEffects | patches-core/src/tracker.rs:199-391 | the single back-patching pass leaves, in every cell, the effect that looking ahead gives, and reports exactly the errors of the specification, whatever effects the cells held before |
| Tracker.BuildCell | patches-core/src/tracker.rs:209-374 | one cell: its own effect, and one patch to the open head |
| Tracker.EffectAfter | patches-core/src/tracker.rs:226-372 | one more cell changes the look-ahead effect of the open head, by that patch, and of no other earlier cell |
| Tracker.PlainEffects | patches-core/src/tracker.rs:209-374 | the effect of every cell that opens no slide and no roll, spelled out with its own values, and of `_` by what is open before it |
| Tracker.RollEffect | patches-core/src/tracker.rs:219-300 | a repeated note rolls over all the ties after it, its span saturating at 255 |
| Tracker.SlideEffect | patches-core/src/tracker.rs:226-433 | how a slide closes: on the value of its stop, one step longer for an in-tick close, on nothing at a rest, and on its own value if no stop follows |
| Tracker.ErrorsSpelled | patches-core/src/tracker.rs:339-391 | the errors: each in-tick close with no slide open, and the slide left open at the end, by its opener |
| Tracker.SlideAfter | patches-core/src/tracker.rs:400-433 | the slide from a head, extended or closed by the next cell |
| Tracker.OpenSlideIff | patches-core/src/tracker.rs:203-256 | the open modifier, read backwards, is a slide head exactly when looking ahead finds no stop after it |
| Tracker.OpenRollIff | patches-core/src/tracker.rs:219-290 | the same for a roll head and the ties after it |
| Tracker.UnmatchedIff | patches-core/src/tracker.rs:339-368 | an in-tick close is unmatched exactly when no slide head runs up to it |
| Tracker.UnmatchedClosesExactly | patches-core/src/tracker.rs:339-368 | the errors are each unmatched close once, in order |
| Tracker.Idempotent | patches-core/src/tracker.rs:195-203 | resolving twice gives the same effects and the same errors |
| PeakWindow.PeakWindow.constructor | patches-dsp/src/peak_window.rs:49-65 | capacity is the least power of two that is large enough; window is the capacity |
| PeakWindow.PeakWindow.Push | patches-dsp/src/peak_window.rs:86-108 | the history grows by one absolute value; the deque stays within its ring; exactly one insertion, and no more pops than insertions over any run |
| PeakWindow.PeakWindow.SetWindow | patches-dsp/src/peak_window.rs:77-80 | clamps the window and rebuilds the deque for the same history |
| PeakWindow.PeakWindow.RebuildDeque | patches-dsp/src/peak_window.rs:121-136 | the deque of the current window, from the ring |
| PeakWindow.PeakWindow.AppendIndex | patches-dsp/src/peak_window.rs:99-107 | pops what the new value dominates, then appends it |
| PeakWindow.PeakWindow.Peak | patches-dsp/src/peak_window.rs:111-117 | after any interleaving of pushes and window changes, the maximum of the last `window` absolute values, zero before the start |
| PeakWindow.MaxOverIsMaximum | patches-dsp/src/peak_window.rs:111-117 | the maximum bounds every value of the range and is one of them |
| PeakWindow.MaxSpelled | patches-dsp/src/peak_window.rs:111-117 | the same on positions of the history, with zeros before its start |
| PeakWindow.FrontIsMax | patches-dsp/src/peak_window.rs:111-117 | the front of a monotone deque is the maximum of its range |
| PeakWindow.ShouldEvict | patches-dsp/src/peak_window.rs:91-97 | the front holds the evicted slot exactly when it stands for the time that leaves the window |
| Ring.SlotUnique | patches-dsp/src/peak_window.rs:91-107 | two times less than a capacity apart share a slot only when equal |
| StateStream.StreamWriteAll | patches-clap/src/extensions.rs:908-939 | all bytes, however the host splits the writes; success never loses a byte, and up to sixteen stalls in a row are survived |
| StateStream.StreamReadAll | patches-clap/src/extensions.rs:974-1003 | exactly the next bytes, however the host splits the reads; from a host that stalls at most sixteen times in a row it fails only on a short stream |
| StateStream.TryReadU32 | patches-clap/src/extensions.rs:949-971 | a word read is its first four bytes, the lowest first, from any host; from one that does not stall, end of stream exactly when nothing is left and an error exactly on a partial word |
| StateStream.WriteLengthPrefixed | patches-clap/src/extensions.rs:878-888 | the length as four bytes, the lowest first, and then the bytes |
| StateStream.ReadLengthPrefixed | patches-clap/src/extensions.rs:891-905 | from any host the bytes announced by the length word, four bytes with the lowest first, or nothing; from a patient one nothing only if they are not there |
| StateStream.StateSave | patches-clap/src/extensions.rs:169-263 | a successful save has written exactly the serialised state, in the layout of `StateStream.SaveLayout`, with the live host-control values over the cached ones; a patient host always gets it |
| StateStream.SaveLayout | patches-clap/src/extensions.rs:169-263 | a save byte by byte: path, source, module paths, tap numbers, width and height (800 and 600 if unset), tap modes, host controls; each list after its count, each text after its length, each word as four digits to base 256 with the lowest first |
| StateFormat.PrintIsLittleEndian | patches-clap/src/extensions.rs:878-888 | a number is written as its four lowest digits to base 256, the lowest first |
| StateFormat.ReadIsLittleEndian | patches-clap/src/extensions.rs:949-971 | four bytes are read as the sum of each times 256 to its position |
| StateStream.LiveWins | patches-clap/src/extensions.rs:154-167 | live values win, a control that is not live keeps its cached value, and there are no others |
| StateStream.DeserializeState | patches-clap/src/extensions.rs:295-438 | from any host, a load that succeeds is exactly what the bytes mean, words read as `StateFormat.ReadIsLittleEndian` says, but for sections taken for absent because the host stalled before their first word; from a host whose every read makes progress, exactly what the bytes mean, failing only when they mean nothing |
| StateStream.AllHeard | patches-clap/src/extensions.rs:949-971 | with every section noticed that is what the bytes mean |
| StateStream.StalledSectionsLost | patches-clap/src/extensions.rs:949-971 | a host that stalls before every section: the load succeeds with only the two texts |
| StateStream.ReadHostRecord | patches-clap/src/extensions.rs:410-423 | a host control, name and value both read with retries: from a patient host nothing only if it is not there |
| StateStream.ReadTapModes | patches-clap/src/extensions.rs:376-401 | modes are merged into the options already read, creating a default entry for a new name; from any host, all of the section, or none of it if it was taken for absent |
| StateStream.SaveThenLoad | patches-clap/src/extensions.rs:169-438 | through any patient writer and any steady reader, a state comes back in canonical form, live values included |
| StateFormat.SectionsRoundTrip | patches-clap/src/extensions.rs:312-423 | printed sections parse back, the missing ones absent |
| StateFormat.SectionsPrefix | patches-clap/src/extensions.rs:312-423 | sections cut anywhere but at a boundary are rejected |
| StateFormat.RecordsPrefix | patches-clap/src/extensions.rs:326-356 | a list cut short is rejected |
| StateCodec.ModesBack | patches-clap/src/extensions.rs:376-401 | the mode section restores the modes of the taps the numeric section restored |
| StateCodec.RecordMeans | patches-clap/src/extensions.rs:326-423 | what each record of a load sets, value by value: the three numbers of a tap with free-running display and curves, its modes over what it has or over the defaults, a host control; an empty name sets nothing |
| StateCodec.RoundTrip | patches-clap/src/extensions.rs:169-438 | what comes back is the state with empty names dropped and an unset window size at its default |
| StateCodec.RoundTripExact | patches-clap/src/extensions.rs:169-438 | a state comes back unchanged if and only if it has no empty path, no empty name and a window size |
| StateCodec.RoundTripFails | patches-clap/src/extensions.rs:169-438 | an unset size, an empty path and an empty host-control name do not come back |
| StateCodec.LoadPrefix | patches-clap/src/extensions.rs:290-438 | every prefix of a saved state: cut at one of the section boundaries it loads with the later sections at their defaults, cut anywhere else it is rejected |
| Halfband.HalfbandFir.constructor | patches-dsp/src/halfband.rs:36-48 | a power-of-two delay line long enough for the kernel, all zero |
| Halfband.HalfbandFir.PushSample | patches-dsp/src/halfband.rs:115-120 | the delay line holds the newest samples |
| Halfband.HalfbandFir.Process | patches-dsp/src/halfband.rs:53-74 | one output per pair: the direct convolution of the whole history with the symmetric kernel, at the time of the first sample |
| Halfband.HalfbandFir.PushAndEval | patches-dsp/src/halfband.rs:92-112 | one output per sample, the same convolution |
| Halfband.FoldedIsResponse | patches-dsp/src/halfband.rs:60-73 | adding symmetric tap pairs outwards from the centre is the direct convolution |
| Halfband.ResponseLinear | patches-dsp/src/halfband.rs:53-74 | the filter is linear |
| Halfband.ImpulseResponse | patches-dsp/src/halfband.rs:53-74 | on an impulse it gives the centre tap two samples a tap later, the taps from the innermost outwards at the odd distances either side, and nothing at any other |
| Halfband.Causal | patches-dsp/src/halfband.rs:53-74 | later samples do not change an output |
| Interpolator.HalfbandInterpolator.Process | patches-dsp/src/interpolator.rs:75-100 | for every input stream, the two outputs are exactly twice the FIR response to the zero-inserted stream at the even and at the odd position |
| Interpolator.FoldedOnEven | patches-dsp/src/interpolator.rs:80-83 | centred on a real sample, only the centre tap meets a sample |
| Interpolator.FoldedOnOdd | patches-dsp/src/interpolator.rs:85-97 | centred on an inserted zero, tap t meets the samples t and 15 - t back |
| Decimator.X2Stage.Push | patches-engine/src/decimator.rs:47-56 | every second push gives the next sample of the filtered stream at even times |
| Decimator.DecimatedPush | patches-engine/src/decimator.rs:47-56 | one more sample gives one more output exactly when it completes a pair |
| Decimator.Decimator.Push | patches-engine/src/decimator.rs:94-103 | a sample out exactly when a group of `factor` is complete: the next of the stream decimated once per stage |
| Decimator.DecimatedLength | patches-engine/src/decimator.rs:94-103 | one output remains of every `factor` samples |
| Callback.FramesFit | patches-cpal/src/callback.rs:222-226 | every buffer of whole frames holds the frames counted in it if and only if the channel count is a power of two; and then the count is the number of frames |
| Callback.Overflows | patches-cpal/src/callback.rs:222-226 | for any other channel count, every buffer of at least one frame is counted as at least three times its frames |
| Callback.SixChannels | patches-cpal/src/callback.rs:222-226 | one frame of six channels is counted as three |
| Callback.AudioCallback.constructor | patches-cpal/src/callback.rs:78-116 | starts at the beginning of a sub-block, for any channel count |
| Callback.AudioCallback.InnerTicks | patches-cpal/src/callback.rs:133-151 | the inner ticks of one frame: `factor` inputs fed in equal steps from the previous frame, the last of them the popped one; the decimators answer once each, on the last tick, and the frame takes that answer |
| Callback.AudioCallback.PlayFrame | patches-cpal/src/callback.rs:124-155 | one frame from its input pop to its output: its inputs lie on the line from the frame heard before to the one popped, or stay on the former if the queue is empty |
| Callback.AudioCallback.ProcessChunk | patches-cpal/src/callback.rs:118-179 | a chunk of frames, each fed on its own line and written to its place in the buffer, earlier frames untouched |
| Callback.AudioCallback.FillBuffer | patches-cpal/src/callback.rs:222-257 | on a buffer that holds the frames counted in it, plays exactly those, one frame step each, whatever was left of the sub-block, each fed in `factor` equal steps to what it popped; leaves in the buffer, frame by frame, left and right, their mean for one channel, and zero on any further channel |
| Playback.ChunkIsRun | patches-cpal/src/callback.rs:230-257 | a chunk prepared before and settled after is that many frame steps |
| Playback.BufferSizesDoNotMatter | patches-cpal/src/callback.rs:222-257 | however the frames are cut into host buffers, the final state is the same: trace of prepares, windows, inputs and ticks, and output frames |
| Playback.Clock | patches-cpal/src/callback.rs:230-257 | after n frames: the countdown, the sample counter, the ticks run, a preparation at every sub-block begun, and the drain windows so far, the j-th being [jP, (j+1)P) |
| Playback.WindowsMatchTicks | patches-cpal/src/callback.rs:230-257 | at the default period, window j opens at inner tick jP |
| Playback.EveryFrameDecimated | patches-cpal/src/callback.rs:133-165 | output frame i is output i of each decimated tick stream, and each frame used exactly `factor` ticks |
| PlaybackTrace.RunFed | patches-cpal/src/callback.rs:133-151 | over every run: each frame feeds exactly `factor` inputs, the first `(current - prev) / factor` from the frame before, each next one as far from the last, and the last is the popped frame, or the frame before if the queue is empty |
| PlaybackTrace.EveryRun | patches-cpal/src/callback.rs:118-179 | over every run: with an input queue each tick comes right after its input and each input right before a tick, without one there are no inputs; a drain window comes right after its preparation; output sample i, left and right, is what the processor gives at tick i |
| MidiIo.MidiOutput.Write | patches-core/src/midi_io.rs:160-165 | queues an event, or drops it when 32 are buffered |
| MidiIo.MidiOutput.Flush | patches-core/src/midi_io.rs:173-188 | sends up to five events with the total, and keeps the rest in order |
| MidiIo.MidiInput.Read | patches-core/src/midi_io.rs:103-127 | stashes at most 32 while more are announced, then delivers them all |
| MidiIo.PlaySample | patches-core/src/midi_io.rs:103-188 | a writer and a reader on a cable make one step of the link model |
| MidiIo.EveryBatch | patches-core/src/midi_io.rs:103-188 | for every schedule of writes, each batch is exactly the first 32 of the events accepted since the batch before, in order, and batches and what is in flight account for every accepted event |
| MidiIo.BatchSpelled | patches-core/src/midi_io.rs:103-127 | a batch is all the events accepted since the one before, or the first 32 of them |
| MidiIo.NothingLost | patches-core/src/midi_io.rs:103-188 | nothing accepted is lost while at most 32 events are accepted between deliveries |
| MidiIo.DrainsInTime | patches-core/src/midi_io.rs:173-188 | with no further writes, a delivery comes after exactly the drain time and no sooner: at most seven samples |
| MultistageEnv.EnvCore.SetStages | patches-dsp/src/multistage_env.rs:118-122 | copies at most eight stages and keeps the sustain stage in range |
| MultistageEnv.EnvCore.SetSustainStage | patches-dsp/src/multistage_env.rs:125-135 | clamped into range |
| MultistageEnv.EnvCore.SetLevelScale | patches-dsp/src/multistage_env.rs:140-142 | stored for the next trigger, negative values as zero |
| MultistageEnv.EnvCore.Start | patches-dsp/src/multistage_env.rs:164-174 | stage 0 from the current level, velocity latched |
| MultistageEnv.EnvCore.EnterRelease | patches-dsp/src/multistage_env.rs:180-190 | the stage after the sustain stage, or rest |
| MultistageEnv.EnvCore.Tick | patches-dsp/src/multistage_env.rs:198-222 | one sample is one step of the value machine, level within [0, 1] |
| MultistageEnv.EnvCore.Advance | patches-dsp/src/multistage_env.rs:228-257 | instant stages chain within the tick, and the loop always leaves by a return, never by using up its bound |
| MultistageEnv.EnvCore.CompleteStage | patches-dsp/src/multistage_env.rs:260-274 | sustain, rest or the next stage, and whether a chain goes on |
| MultistageEnv.TickReachable | patches-dsp/src/multistage_env.rs:198-274 | what every tick keeps, for any gate, trigger and time scale |
| MultistageEnv.CountStep | patches-dsp/src/multistage_env.rs:246-254 | one sample of a timed stage leaves one tick fewer, and the stage ends exactly when none is left |
| MultistageEnv.StageShape | patches-dsp/src/multistage_env.rs:228-291 | the level n samples into a timed stage: on the straight line to the scaled target, or approaching it by exp(-5 t), clamped to [0, 1]; the target once the time is over |
| MultistageEnv.StageEnds | patches-dsp/src/multistage_env.rs:260-274 | after a stage: hold at the sustain stage while the gate is high, rest after the last, otherwise the next stage from the target of this one |
| MultistageEnv.TickCases | patches-dsp/src/multistage_env.rs:198-222 | a trigger restarts before anything else, a low gate releases before the tick, a held stage stays on its target, rest keeps its level |
| MultistageEnv.AdvanceWorks | patches-dsp/src/multistage_env.rs:228-257 | with the gate low, a tick spends exactly one tick of the release or comes to rest |
| MultistageEnv.ComesToRest | patches-dsp/src/multistage_env.rs:198-274 | from every reachable state, gate low and no trigger, idle after 1 + the sum of the rounded-up lengths of the release stages; entered from the sustain side, active until they have run |
| HyperSaw.ExactPhase | patches-dsp/src/hypersaw.rs:133-145 | after n samples the phase is (p + n inc) mod 2^32 and the after-wrap zone has fired floor((p + n inc) / 2^32) times |
| HyperSaw.SawBounded | patches-dsp/src/hypersaw.rs:137-157 | the two correction zones are disjoint and the corrected saw stays within [-1, 1], for every phase and increment with its reciprocal |
| HyperSaw.SawSpelled | patches-dsp/src/hypersaw.rs:137-157 | the saw is the straight one, raised by the square of the rest of the way just after the wrap and lowered likewise just before it |
| HyperSaw.SawOdd | patches-dsp/src/hypersaw.rs:137-157 | the corrected saw passes through zero at the wrap and is odd about it |
| HyperSaw.SawSmooth | patches-dsp/src/hypersaw.rs:137-157 | from one phase to the next it moves by at most 4 / inc + 2^-31, at the wrap as everywhere, where the straight one jumps by two |
| HyperSaw.HyperSawCore.Update | patches-dsp/src/hypersaw.rs:102-111 | increments, reciprocals and gains become the caller's |
| HyperSaw.HyperSawCore.Process | patches-dsp/src/hypersaw.rs:125-161 | every phase steps by its increment modulo 2^32; each voice is the gain-weighted sum of its nine copies, within the sum of the gains' magnitudes |
| TapDesugar.DesugarTaps | patches-dsl/src/desugar.rs:85-235 | the passes over the body compute the output and the manifest below |
| TapDesugar.Coalesce | patches-dsl/src/desugar.rs:112-127 | one channel per kind and name, in order of first occurrence, components folded in |
| Taps.CoalescedIs | patches-dsl/src/desugar.rs:103-127 | keys are distinct, every key written has a channel, and a channel's components are exactly those written for its key |
| Taps.ChannelsInOrder | patches-dsl/src/desugar.rs:103-127 | channels come in the order in which their keys are first written |
| Taps.OccurrencesOfCable | patches-dsl/src/desugar.rs:86-101 | taps are taken cable by cable, and in a cable from left to right |
| Taps.OneMoreTap | patches-dsl/src/desugar.rs:112-127 | each further tap has a channel of its own behind the others, or adds its components to the channel of its key |
| Taps.UnionInOrder | patches-dsl/src/desugar.rs:116-121 | components added to a channel stand behind those it has, in order, and none twice |
| Taps.AliasDistinct | patches-dsl/src/desugar.rs:141-149 | kind and name can be read back from the alias |
| Taps.ManifestSlots | patches-dsl/src/desugar.rs:130-138 | manifest entry i has slot i, and each channel's entries sit at its slots |
| TapDesugar.ChannelsDistinct | patches-dsl/src/desugar.rs:141-231 | slots are manifest positions, and no two channels share an alias |
| TapDesugar.TapLands | patches-dsl/src/desugar.rs:157-231 | every tap lands on one channel where the audio side and the observer side agree: alias and port wired, slot and kind declared for that alias, manifest entries at that slot, components exactly those written |
| TapDesugar.TapLandsSpelled | patches-dsl/src/desugar.rs:157-287 | the same in the words of the output: a tap with a `trigger_led` is a trigger, otherwise with a `stereo_meter` stereo, otherwise mono; its cable goes to `~tap`, port `<kind>_in`, index `<kind>_<name>`; the `Tap` module is mono and lists that alias, whose block declares slot and kind; its manifest entries stand at that slot, `/left` and `/right` for stereo |
| TapDesugar.KindSpelled | patches-dsl/src/desugar.rs:41-83 | kind, port, alias, width and entries of a tap, spelled out |
| TapDesugar.CanonicalDistinct | patches-dsl/src/desugar.rs:340-354 | the text key of a port determines the port |
| TapDesugar.WiringKept | patches-dsl/src/desugar.rs:169-203 | the cables of the output are the rewritten ones in order, arrows included, without those that repeat the tap edge of an earlier cable; the synthetic module comes first, and every declaration and every other statement is kept |
| TapDesugar.ScalesSurvive | patches-dsl/src/desugar.rs:169-190 | every scale survives if and only if no two cables on one tap edge have different scales |
| TapDesugar.SecondScaleLost | patches-dsl/src/desugar.rs:169-190 | two cables from one port to one tap, the second scaled: the scale is lost |
| TapDesugar.RewriteTap | patches-dsl/src/desugar.rs:299-323 | the table lookup never fails and lands on the channel of the tap |
| HostControls.DesugarHostControls | patches-dsl/src/host_control_desugar.rs:67-147 | the passes compute the output and the manifest below; the lookup of a reference never fails |
| HostControls.CollectImplied | patches-dsl/src/host_control_desugar.rs:87-100 | each undeclared name referred to, once, in order of first reference |
| HostControls.AllDistinct | patches-dsl/src/host_control_desugar.rs:82-108 | implied controls never clash with declared ones or each other |
| HostControls.SlotIsRank | patches-dsl/src/host_control_desugar.rs:115-116 | the slot of a control is the number of controls whose names come before its own |
| HostControls.OrderIrrelevant | patches-dsl/src/host_control_desugar.rs:67-147 | the output does not depend on the order or place of the declarations |
| HostControls.ImplicitIsEmptyKnob | patches-dsl/src/host_control_desugar.rs:82-108 | a name that is only referred to gives the same output as an explicit empty knob anywhere in the body |
| HostControls.AlphabeticalUnique | patches-dsl/src/host_control_desugar.rs:115-116 | an alphabetical list is determined by its members |
| HostControls.LessIff | patches-dsl/src/host_control_desugar.rs:118-120 | that order is the order of a dictionary: at the first difference the smaller character, or the shorter text if there is none |
| HostControls.ControlLands | patches-dsl/src/host_control_desugar.rs:115-255 | every control referred to lands on one channel where the audio side and the manifest agree: cables go to `~host_control`, port `trigger_out` for a trigger and `audio_out` otherwise, index its name; the module declares slot and kind for that alias, and the manifest entry of that slot has its name and the kind and parameters written for it |
| HostControls.ParamsNamed | patches-dsl/src/host_control_desugar.rs:152-170 | the parameters in a manifest entry are those its fields name, and no others |
| HostControls.ParamsLast | patches-dsl/src/host_control_desugar.rs:152-170 | of several values for one field the last is the parameter |
| HostControls.StatementsKept | patches-dsl/src/host_control_desugar.rs:128-143 | the synthetic module comes first, every other declaration is kept, and every statement that declares no control |
| HostControls.ReferencesLanded | patches-dsl/src/host_control_desugar.rs:130-143 | every cable stays in its place with its arrow, its references landed, and none is left |

## Left out

- Floating point: rounding, NaN, denormals, and sine, cosine and exponential themselves; arithmetic is exact.
- FFT: the AVX2 and NEON paths; the lookup tables are sequences, since nothing changes them after construction.
- Parser, template expansion, planner, validation, diagnostics, source spans and provenance.
- Sections of included files: only templates, patterns and songs are merged. A path has one parse result, in the role
  in which it is read; the grammars of a master and of an included file are not modelled.
- StereoFile.DesugarStereo: does not say which span or message an error carries, because spans are dropped from the syntax tree.
- StereoFile.MeaningPreserved: cables with an index other than `[l]` or `[r]` are covered by the exact condition and
  not given a meaning of their own.
- TapDesugar.WiringKept: its precondition is what the grammar allows in a name, which is what makes the text key
  unambiguous. Known component names are assumed, as validation checks them; unknown ones would panic.
- HostControls.DesugarHostControls: the library sort is modelled by an insertion sort; the theorems depend only on the
  alphabetical order of distinct names, which fixes the result. The conversion of field values is the identity.
- Ticks.RunIsTick: a module reads all its inputs before it writes; slots 30 and 31 are write sinks, which any module may
  write and none reads.
- CablePool.CablePool.Tick: the module pool is a list of module behaviours; panics and halts of modules and the CPU
  monitor are not modelled, and the mask that wraps the counter is the remainder by the interval, a power of two.
- StateStream.DeserializeState: does not promise success from a host that stalls, because a stall in one of the reads
  without retries is an error or passes for the end of the stream; what a successful load means it says for every host.
- StateStream.TryReadU32: an error or an end of stream from a host that stalls or fails is not related to the bytes.
- StateStream.ReadTapModes: the same.
- Clamping of the loaded window size and the plugin around the state streams.
- Callback.AudioCallback.FillBuffer: leaves out plan adoption, the caught panic, the recorder, clock publication and what
  events a drain window yields; a buffer that does not hold the frames counted in it, which makes the code panic, is
  excluded by its precondition, and `Callback.FramesFit` says when that is.
- Callback.AudioCallback.constructor: takes an oversampling factor of 1, 2, 4 or 8, which is all that
  `patches-cpal/src/engine.rs:147-154` passes.
- MidiIo.PlaySample: leaves out the packing of a frame into sixteen floats, and the one-sample delay of an unfused cable, which
  delivers the same frames later.
- MultistageEnv.ComesToRest: is for fixed stages and a constant time scale; changing the stage list in flight is
  modelled by the methods and covered only by their contracts.
- HyperSaw.HyperSawCore.Process: starting phases are given, the random generator behind them is not modelled.
- Peak, tracker and callback use unbounded indices where the source uses machine words that cannot overflow in practice.
- GUI, CLAP entry points, device handling, file dialogs, bundles and build scripts; ADSR, limiter, one-pole filters,
  bitcrusher, random walk and polynomial approximations: they would add only easy members.
