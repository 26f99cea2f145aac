# Verified model of the U2F security key

This project models the core of the firmware of a U2F security key that runs on the H1 chip, and proves what the firmware
is for. It has four parts.

**P-256 on the big-number accelerator** (`Modular`, `Accelerator`, `MulMod`, `ModInverse`, `Projective`, `CurveLaw`,
`ScalarMult`, `Verify`, `Sign`). The accelerator program is modelled instruction by instruction on registers of 256 bits: a Barrett
multiplication with one and a half correction steps, two modular inversions, the complete addition formula for projective
points, an addition chain for the affine coordinates, a blinded scalar multiplication with split scalars and random
rescaling, and the joint double-and-add of signature verification. The results build up to a round trip: what `p256sign`
produces, `p256verify` accepts, exactly when r and s are not zero, the random masks serve and the x-coordinate of the
ephemeral point is below the group order.

**The U2F HID transport** (`Frames`, `Transport`, `TransportDevice`, `TransportRuns`). A class that updates the static
variables and the receive buffer frame by frame is proved to follow a pure step function; safety (no mixing of channels, all
copies in bounds, dispatched bytes are the bytes sent) and delivery are proved over every run of frames.

**Encodings, integers and random numbers** (`P256Int`, `Drbg`, `Der`, `Asn1`, `HealthTest`, `Cmac`). Loops over digits,
bytes, bits and blocks are proved against short mathematical definitions or against a standard.

**Kernel state machines** (`CounterPage`, `NvCounter`, `NvSyscall`, `SpiFifo`, `FlashPage`). The counter that must never go
back, through torn flash writes and power losses; the system call that shares it among apps; the SPI command ring; and the
run-length encoded page that stands in for flash.

## Assumptions

- The accelerator's instruction set is not documented in the repository. `Accelerator` states the reading of each mnemonic;
  `movi` writes one half-word, `selm`, `sell` and `selc` select on the most significant bit, the least significant bit and the
  carry of the last flag-setting result, `addm` and `subm` make one conditional correction by the loaded modulus and drop
  what then still exceeds a register.
- That the addition formula is a group law on the curve is a hypothesis (`Implements`), as are primality of p and n
  (`Prime`), Fermat's theorem for them (`Fermat`), that only the neutral element has Z = 0 (`ZeroAtInfinity`), that
  representatives of one point are proportional (`Proportional`) and that G has order n (`OrderN`). What the firmware needs
  of the formula beyond that (commutativity, scaling, the initial accumulator) is proved, and so is that it follows chords and
  tangents of the curve.
- HMAC, the AES block function and the command handlers behind MSG and SYSINFO are parameters; so are random masks, failures
  of the flash, of AES and of memory allocation, and the moments of power loss.

## Where the code does something other than expected

- `MulMod` is not exact on all pairs of registers: when both operands are unreduced the quotient estimate can exceed a
  register. `MulMod.MulMod` gives the exact condition, `MulMod.UnreducedSquareFails` an instance, and
  `MulMod.ReducedFactor` shows that one reduced operand, which every call in the firmware has, is enough.
- `ModInvVar` never ends on zero (`ModInverse.DivergesOnZero`). `p256verify` calls it on the Z of the sum (r/s)*Q + (msg/s)*G,
  so that verification does not end when the checks pass and that sum is the neutral element (`Verify.EcdsaVerify`): for
  the key d*G exactly when n divides r*d + msg (`Sign.FiniteIff`; an instance is `Sign.NeutralExample`).
- A random mask divisible by p turns a point into (0:0:0), from which every later sum is (0:0:0). Not every mask matters:
  `ScalarMult.ScalarMultInternal` says exactly which do for given shares, and that the result is (0, 0) otherwise; an instance
  is `Sign.ZeroMaskFails`.
- The curve check subtracts x itself, not its residue, so that for some x at or above p a borrow is dropped. `Verify.CheckOnCurve`
  gives the exact condition under which the check decides the curve equation; `Verify.BorrowedCheckErrs` is a pair that violates
  the equation and passes.
- `p256verify` compares the x-coordinate with r without reducing it modulo n, so that a correct signature is rejected when the
  coordinate is not below n (`Verify.StandardIff` for every signature, `Sign.SignThenVerify` for the firmware's own).
- An empty LOCK request takes its duration from whatever byte the receive buffer still holds (`TransportRuns.LockDuration`).
- `asn1_p256_int` of zero reads one byte behind its array (`Asn1.Writer.P256Integer`); `asn1_seq` keeps the wrong bytes when
  the reserved header is too small (`Asn1.Writer.Seq`); `asn1_len` truncates lengths from 65536 on (`Der.LenExact`).
- A write that finishes while the counter is being initialized makes the initialization fail: the erase is called with a word
  offset instead of a page number (`NvCounter.FlashCounter.WriteDone`). `NvCounter.Initialization` says exactly when an accepted
  initialization succeeds, `NvCounter.RolloverUnderWay` how the failing state is reached on a flash without errors.
- Two interruptions of a strike on the same flash word can skip counts (`CounterPage.TornTwiceJumps`); they never lose one. A
  strike is atomic exactly on clean words and on words with seven strikes (`CounterPage.AtomicIff`).
- `FakePage::write` drops words beyond the end of the page although its comment says that the write fails
  (`FlashPage.FakePage.Write`).
- `fips_cmac_generate` gives the all-zero tag for the empty message, unlike RFC 4493 (`Cmac.EmptyMessage`,
  `Cmac.EmptyMessageDiffers`), and `fips_cmac_verify` accepts every prefix of the tag, the empty one included,
  and compares longer codes with what lies behind the tag on the stack (`Cmac.Verify`).
- The repetition count test needs a cutoff of at least 32 bits, as its comment says: it is exact if and only if the cutoff is not
  between 2 and 31 (`HealthTest.ExactIff`), and for 0 and 1 it never passes.
- A comment on `fips_p256_pick` excludes the scalar 1; the code can return it (`Drbg.Pick`, `Drbg.PicksOne`). On failure the
  output is not left alone but holds one more than the last rejected candidate, or than what lay on the stack.

## Model

| member | source | states |
|---|---|---|
| `MulMod.SetupP256PandMuLow` | userspace/u2f_app/p256_ecdsa.c:32-55 | the half-word moves leave the field prime and the Barrett constant that belongs to it |
| `MulMod.SetupP256NandMuLow` | userspace/u2f_app/p256_ecdsa.c:405-432 | the half-word moves leave the group order and the Barrett constant that belongs to it |
| `MulMod.MulWide` | userspace/u2f_app/p256_ecdsa.c:83-90 | the two result registers hold the exact 512-bit product |
| `MulMod.LoadedIsBarrett` | userspace/u2f_app/p256_ecdsa.c:32-55 | for p and n the constant is floor(2^512 / m) and the division leaves at most 2^255, which is what makes the short correction enough |
| `MulMod.BarrettError` | userspace/u2f_app/p256_ecdsa.c:91-116 | for any modulus with such a constant, the quotient estimate is never too large and leaves less than m + 2^256 |
| `MulMod.BarrettBound` | userspace/u2f_app/p256_ecdsa.c:91-116 | the same bound for every 512-bit product and the two loaded constants |
| `MulMod.QuotientEstimate` | userspace/u2f_app/p256_ecdsa.c:91-106 | the shifts, selections and carries compute the estimate modulo 2^256 |
| `MulMod.WideRemainder` | userspace/u2f_app/p256_ecdsa.c:107-116 | product and borrow chain give the two-register remainder |
| `MulMod.CorrectFits` | userspace/u2f_app/p256_ecdsa.c:117-119 | selection on the low bit plus one modular addition reduce every remainder below m + 2^256 |
| `MulMod.CorrectWrapped` | userspace/u2f_app/p256_ecdsa.c:117-119 | after a wrapped estimate the correction is right exactly when the remainder lies in [m, 2^256) |
| `MulMod.ReducedFactor` | userspace/u2f_app/p256_ecdsa.c:81-121 | one reduced factor keeps the estimate within a register |
| `MulMod.MulMod` | userspace/u2f_app/p256_ecdsa.c:81-121 | for all pairs of registers and both moduli: the result is reduced; it is the product modulo m if and only if the product is reducible, hence whenever one factor is reduced |
| `MulMod.UnreducedSquareFails` | userspace/u2f_app/p256_ecdsa.c:81-121 | the square of 2^256 - 1 modulo p is a product on which the routine is wrong |
| `ModInverse.StepKeeps` | userspace/u2f_app/p256_ecdsa.c:594-629 | every pass keeps R*a = U and S*a = V modulo m, both below m, and the common divisors, and makes U + V smaller; it stops exactly at the gcd |
| `ModInverse.ModInvVar` | userspace/u2f_app/p256_ecdsa.c:587-632 | for every odd modulus and every non-zero register the loop ends with R*a = gcd(a, m) modulo m and R < m, so with the inverse when they are coprime |
| `ModInverse.DivergesOnZero` | userspace/u2f_app/p256_ecdsa.c:587-632 | on zero every number of passes leaves the loop running |
| `ModInverse.ModInv` | userspace/u2f_app/p256_ecdsa.c:361-382 | 256 rounds of square and multiply raise the register to exactly m - 2 |
| `ModInverse.InverseUnique` | userspace/u2f_app/p256_ecdsa.c:361-382 | an inverse modulo m is unique |
| `ModInverse.InversesAgree` | userspace/u2f_app/p256_ecdsa.c:587-632 | under Fermat's theorem the binary and the power inversion return the same value |
| `Projective.SumCommutes` | userspace/u2f_app/p256_ecdsa.c:149-231 | the complete addition formula is symmetric |
| `Projective.SumScales` | userspace/u2f_app/p256_ecdsa.c:149-231 | scaling the operands by l and m scales the sum by (l*m)^2 |
| `Projective.SumInfinity` | userspace/u2f_app/p256_ecdsa.c:448-452 | adding (0:1:0) gives Y times the point |
| `Projective.SumOpposite` | userspace/u2f_app/p256_ecdsa.c:149-231 | a point plus its opposite has X = 0 and Z = 0: a multiple of (0:1:0) |
| `Projective.SumCong` | userspace/u2f_app/p256_ecdsa.c:149-231 | the sum depends only on residues, so reducing between instructions changes nothing |
| `Projective.ProjAdd` | userspace/u2f_app/p256_ecdsa.c:149-231 | for all registers the result is reduced; with one operand reduced the 80-instruction program computes the complete addition formula for a = -3 from the six products that its registers hold, sums of coordinates less what they drop; nothing is dropped, and the formula is that of the operands, when the other operand is loose |
| `CurveLaw.ChordLaw` | userspace/u2f_app/p256_ecdsa.c:149-231 | for all triples of integers and all a and b: the determinant of two points and of the mirror image of their sum is K(p)*F(q) - K(q)*F(p), with F the Weierstrass form, so that the three lie on a line when both points are on the curve |
| `CurveLaw.TangentLaw` | userspace/u2f_app/p256_ecdsa.c:397-404 | for every triple the mirror image of its double lies on the line given by the gradient of the Weierstrass form |
| `CurveLaw.SumOnChord` | userspace/u2f_app/p256_ecdsa.c:149-231 | the same of what the program leaves in its registers, modulo p or any other modulus, for points of the curve |
| `CurveLaw.DoubleOnTangent` | userspace/u2f_app/p256_ecdsa.c:397-404 | what doubling leaves in its registers lies on the tangent, mirrored |
| `Projective.RegisteredIs` | userspace/u2f_app/p256_ecdsa.c:149-231 | where no sum of coordinates drops a carry the registers hold the products of the formula |
| `Projective.DroppedShifts` | userspace/u2f_app/p256_ecdsa.c:149-231 | where x + y drops one, adding the point to (0:1:0) shifts its X by 2^256 |
| `Projective.AddPointsReduced` | userspace/u2f_app/p256_ecdsa.c:149-231 | unreduced operands lead to the same result as their residues |
| `Projective.AddPointsCommutes` | userspace/u2f_app/p256_ecdsa.c:149-231 | symmetry of what the program leaves in its registers |
| `Projective.AddPointsScales` | userspace/u2f_app/p256_ecdsa.c:471-483 | random rescaling of the operands rescales the result and nothing else |
| `Projective.AddPointsInfinity` | userspace/u2f_app/p256_ecdsa.c:448-452 | the initial accumulator only rescales |
| `Projective.AddPointsAbsorbs` | userspace/u2f_app/p256_ecdsa.c:383-396 | a mask divisible by p would destroy the computation: (0:0:0) absorbs every point |
| `Projective.SquareBy` | userspace/u2f_app/p256_ecdsa.c:252-257 | n squarings multiply the exponent by 2^n |
| `Projective.ProjToAffine` | userspace/u2f_app/p256_ecdsa.c:232-360 | the addition chain raises Z to exactly p - 2, and both coordinates are multiplied by that power |
| `Groups.MultAdd` | userspace/u2f_app/p256_ecdsa.c:433-487 | multiples of an element of an abelian group add up |
| `ScalarMult.RotateStep` | userspace/u2f_app/p256_ecdsa.c:466-467 | a rotation hands out the bits of a scalar from the top and keeps the rest |
| `ScalarMult.FetchBandRandomize` | userspace/u2f_app/p256_ecdsa.c:383-396 | the base point, rescaled by the reduced mask |
| `ScalarMult.Rescale` | userspace/u2f_app/p256_ecdsa.c:471-483 | the stored double, rescaled by a fresh mask |
| `ScalarMult.Round` | userspace/u2f_app/p256_ecdsa.c:452-483 | for all masks: the accumulator represents 2t plus both top bits times the base if it was alive, the mask of B is a unit where exactly one bit is set, and 2B is alive where both are; otherwise it is (0:0:0) |
| `ScalarMult.SumCarries` | userspace/u2f_app/p256_ecdsa.c:452-465 | a sum represents the sum of the elements unless an operand has been destroyed, and then is destroyed itself |
| `ScalarMult.ScaleCarries` | userspace/u2f_app/p256_ecdsa.c:471-483 | rescaling keeps the element exactly for unit masks |
| `ScalarMult.RotatedBit` | userspace/u2f_app/p256_ecdsa.c:454-467 | the register that is tested in round i shows bit 255 - i of the share |
| `ScalarMult.SharesMultiple` | userspace/u2f_app/p256_ecdsa.c:435-438 | the two shares add up to the scalar modulo the order, so their multiples do |
| `ScalarMult.ScalarMultInternal` | userspace/u2f_app/p256_ecdsa.c:433-487 | for every scalar below n, every splitting value and all masks: if every mask that the bits of the two shares make use of is a unit modulo p, the result is the affine form of k times the base, in every group that the formula implements; otherwise both coordinates are zero |
| `Verify.AndStep` | userspace/u2f_app/p256_ecdsa.c:694-704 | the carry of the shifted conjunction is set exactly when both scalars have the bit |
| `Verify.ShiftedStep` | userspace/u2f_app/p256_ecdsa.c:711-725 | the carry of a doubled register is the next bit of the scalar |
| `Verify.JointRound` | userspace/u2f_app/p256_ecdsa.c:699-725 | one round doubles and adds G+Q, Q, G or nothing according to the pair of bits |
| `Verify.JointMult` | userspace/u2f_app/p256_ecdsa.c:684-726 | for all pairs of registers the loop represents u0*Q + u1*G, also for unreduced coordinates of Q whose sum fits; the result is reduced for all registers |
| `Verify.CheckOnCurve` | userspace/u2f_app/p256_ecdsa.c:645-664 | for all pairs of registers: where no borrow is dropped, the check accepts exactly the pairs that satisfy the curve equation; where one is, it accepts no pair that satisfies it |
| `Verify.OnCurveIs` | userspace/u2f_app/p256_ecdsa.c:645-664 | the equation of the check is the one whose chords and tangents the addition formula follows |
| `Verify.BaseOnCurve` | userspace/u2f_app/p256_ecdsa.c:488-525 | the base point satisfies the curve equation |
| `Verify.RightSideIs` | userspace/u2f_app/p256_ecdsa.c:655-659 | the right-hand register is x^3 - 3x + b modulo p if and only if x is reduced or x^3 modulo p is at least three times what x exceeds p by |
| `Verify.BorrowedCheckErrs` | userspace/u2f_app/p256_ecdsa.c:645-664 | a pair with an unreduced x that violates the equation and passes the check |
| `Verify.P256Verify` | userspace/u2f_app/p256_ecdsa.c:633-737 | for all registers: a failed check returns the complement of r, which never equals r; otherwise the affine x-coordinate of (r/s)*Q + (msg/s)*G, and no end if and only if that sum is neutral |
| `Verify.EcdsaVerify` | userspace/u2f_app/p256_ecdsa.c:907-926 | accepts if and only if key, r and s pass the range and curve checks and r is the x-coordinate of (r/s)*Q + (msg/s)*G: the verification equation of ECDSA, except that the coordinate is not reduced; does not return if and only if the checks pass and the sum is neutral |
| `Verify.StandardIff` | userspace/u2f_app/p256_ecdsa.c:727-733 | for every signature in range whose sum has the x-coordinate x: what is accepted satisfies ECDSA, and what satisfies ECDSA is accepted if and only if x is below n |
| `Verify.CancelFactor` | userspace/u2f_app/p256_ecdsa.c:727-733 | non-zero residues modulo a prime cancel |
| `Verify.XUnique` | userspace/u2f_app/p256_ecdsa.c:727-733 | a point has at most one affine x-coordinate, whichever representative the loop ends with |
| `Sign.SignatureEquation` | userspace/u2f_app/p256_ecdsa.c:543-559 | s as computed from the inverse of k satisfies k*s = r*d + msg modulo n |
| `Sign.P256Sign` | userspace/u2f_app/p256_ecdsa.c:526-562 | for all masks: r is the x-coordinate of k*G modulo n if the masks serve and zero otherwise, and s solves the signature equation, both reduced |
| `Sign.ZeroMaskFails` | userspace/u2f_app/p256_ecdsa.c:471-483 | with a zero in one place of the masks even 1*G is not computed |
| `Sign.OriginIsNoPoint` | userspace/u2f_app/p256_ecdsa.c:526-562 | (0, 0), the result for masks that do not serve, is the affine form of no finite point |
| `Sign.MultMult` | userspace/u2f_app/p256_ecdsa.c:526-562 | (a*b)*x = a*(b*x) in every abelian group |
| `Sign.MultMod` | userspace/u2f_app/p256_ecdsa.c:526-562 | multiples depend only on the scalar modulo the order |
| `Sign.ScalarsRecombine` | userspace/u2f_app/p256_ecdsa.c:675-683 | for a signature the verifier's scalar (r*d + msg)*w is k modulo n |
| `Sign.ClaimedMultiple` | userspace/u2f_app/p256_ecdsa.c:675-726 | the point that the verifier computes is (r*d + msg)/s times G |
| `Sign.FiniteIff` | userspace/u2f_app/p256_ecdsa.c:727-728 | for the key d*G and s in range the sum is finite if and only if n does not divide r*d + msg |
| `Sign.NeutralExample` | userspace/u2f_app/p256_ecdsa.c:727-728 | a key, r and message for which verification does not end |
| `Sign.ClaimedIsChosen` | userspace/u2f_app/p256_ecdsa.c:633-737 | the point computed from a signature is the point the signer chose |
| `Sign.AffineByFermat` | userspace/u2f_app/p256_ecdsa.c:232-360 | under Fermat's theorem X*Z^(p-2) is the affine coordinate |
| `Verify.SameAffine` | userspace/u2f_app/p256_ecdsa.c:727-733 | proportional triples have the same affine coordinate |
| `Sign.MatchesIff` | userspace/u2f_app/p256_ecdsa.c:633-737 | a signature that satisfies the signature equation satisfies the verification equation exactly when r is the unreduced x-coordinate of k*G |
| `Sign.SignThenVerify` | userspace/u2f_app/p256_ecdsa.c:825-926 | for every message, key, nonce and all masks: r = 0, s = 0 and masks that do not serve lead to rejection; under tame affine coordinates of d*G, as all reduced ones are, verification ends, and accepts if and only if the masks serve, r and s are not zero, the coordinates satisfy the curve equation and the x-coordinate of k*G is below n |
| `Frames.ContCount` | userspace/u2f_app/u2f_transport.c:335-346 | the number of continuation frames is the least that holds the message, and at most 39 |
| `Frames.InitFrame` | userspace/u2f_app/u2f_transport.c:242-259 | channel, command and length can be read back from the frame |
| `Frames.ContFrame` | userspace/u2f_app/u2f_transport.c:215-232 | channel and sequence number can be read back from the frame |
| `Frames.FragmentAssembles` | userspace/u2f_app/u2f_transport.c:335-355 | the frames of every message up to the maximal length carry exactly that message, in order and numbered from zero, and zeros behind it |
| `Transport.StepKeepsInv` | userspace/u2f_app/u2f_transport.c:418-571 | every frame keeps the invariant: received bytes below the announced length below the buffer size, timeout on the pending channel, lock and transaction on one channel, no broadcast transaction, next id in range |
| `TransportDevice.Device.constructor` | userspace/u2f_app/u2f_transport.c:44-56 | the static variables start in the initial state of the machine |
| `TransportDevice.Device.ConsumeFrame` | userspace/u2f_app/u2f_transport.c:59-68 | the payload lands behind the bytes received so far, in bounds, and the end is recognized |
| `TransportDevice.Device.SendResponse` | userspace/u2f_app/u2f_transport.c:335-355 | the send loop with its 8-bit counter emits all frames of the response, or those that the USB driver takes before it reports an error |
| `TransportDevice.Device.ResponseMsg` | userspace/u2f_app/u2f_transport.c:261-360 | dispatches the pending request, sends its response and returns to idle, as the machine does, also when sending fails |
| `TransportDevice.Device.CmdInit` | userspace/u2f_app/u2f_transport.c:367-414 | answers and moves the allocator as the machine does; `TransportRuns.InitAnswered` says what the answer is |
| `TransportDevice.Device.ProcessFrame` | userspace/u2f_app/u2f_transport.c:418-571 | on every frame the updated variables and the request dispatched are those of one step of the machine, and so are the frames sent, as far as the USB driver takes them |
| `TransportRuns.OtherChannels` | userspace/u2f_app/u2f_transport.c:450-560 | over every run of foreign frames a pending transaction, its bytes and the lock stay as they are and nothing is dispatched |
| `TransportRuns.RunReassembles` | userspace/u2f_app/u2f_transport.c:506-560 | over every run, the buffer holds the in-order payloads of the last frames of the pending channel, and whatever is dispatched was carried by the last frames of its own channel |
| `TransportRuns.Delivered` | userspace/u2f_app/u2f_transport.c:506-560 | a message whose frames arrive in order is dispatched exactly once and intact, whatever other channels send in between |
| `TransportRuns.ResponseRoundTrip` | userspace/u2f_app/u2f_transport.c:335-355 | the frames of every response, fed to the reassembly rule, give back exactly its bytes and length |
| `TransportRuns.Responses` | userspace/u2f_app/u2f_transport.c:261-360 | which frames answer each command; afterwards nothing is pending |
| `TransportRuns.InitAnswered` | userspace/u2f_app/u2f_transport.c:367-414 | whatever is pending or locked, every INIT command outside channel 0 is answered by one frame of 17 bytes on its own channel: its nonce, the next free id on broadcast and its own channel otherwise, version 2, zeros and the capabilities; only a transaction of the same channel is given up |
| `TransportRuns.StepErrors` | userspace/u2f_app/u2f_transport.c:418-571 | for every state, frame and code: the error is sent on the channel of the frame if and only if it is due: a wrong channel, a foreign lock or transaction, a frame out of sequence, too long a message, or an unknown command |
| `TransportRuns.ErrorEffect` | userspace/u2f_app/u2f_transport.c:418-571 | every error but that of an unknown command dispatches nothing and leaves the state alone, except that a frame out of sequence ends the transaction of its channel |
| `TransportRuns.LockedStep` | userspace/u2f_app/u2f_transport.c:466-478 | under a lock only the holder's requests are dispatched and only its LOCK changes the lock |
| `TransportRuns.LockExcludes` | userspace/u2f_app/u2f_transport.c:466-478 | as long as the holder is silent nothing is dispatched and the lock stays, over every run |
| `TransportRuns.LockDuration` | userspace/u2f_app/u2f_transport.c:157-169 | which byte decides a LOCK, for full and for empty requests |
| `TransportRuns.NextCid` | userspace/u2f_app/u2f_transport.c:367-382 | after n allocations the allocator stands at 1 + n modulo 2^32 - 2 |
| `TransportRuns.AllocatedCid` | userspace/u2f_app/u2f_transport.c:367-414 | the n-th allocation of every run answers with that id, never zero and never broadcast |
| `TransportRuns.AllocatedDistinct` | userspace/u2f_app/u2f_transport.c:367-382 | in every run, two allocations fewer than 2^32 - 2 apart answer with different ids |
| `CounterPage.DecodeStruck` | kernel/h1/src/nvcounter/internal.rs:37-91 | reading decodes each of the write patterns to its number of strikes |
| `CounterPage.StrikeClears` | kernel/h1/src/nvcounter/internal.rs:78-91 | the next strike needs only cleared bits on every word content, torn ones included |
| `CounterPage.TornNeverLoses` | kernel/h1/src/nvcounter/internal.rs:37-74 | an interrupted strike never lowers the count of any word |
| `CounterPage.TornIsAtomic` | kernel/h1/src/nvcounter/internal.rs:37-91 | on a cleanly struck word an interrupted strike counts once or not at all |
| `CounterPage.AtomicIff` | kernel/h1/src/nvcounter/internal.rs:37-91 | no interruption of the next strike on a word counts twice if and only if the word is clean or has seven strikes |
| `CounterPage.Jumps` | kernel/h1/src/nvcounter/internal.rs:37-91 | on every other word some interruption jumps to eight |
| `CounterPage.TornTwiceJumps` | kernel/h1/src/nvcounter/internal.rs:37-91 | two interruptions of one word can jump from three strikes to eight |
| `CounterPage.CurrentWord` | kernel/h1/src/nvcounter/internal.rs:37-74 | the count designates the word to strike next, its strikes, and blank words behind it |
| `CounterPage.StrikeCounts` | kernel/h1/src/nvcounter/internal.rs:78-91 | on every page content a completed strike counts exactly once |
| `CounterPage.TornStrike` | kernel/h1/src/nvcounter/internal.rs:37-91 | on every page content an interrupted strike never lowers the count, and raises it by at most one on an atomic word |
| `CounterPage.AtomicStrikeIff` | kernel/h1/src/nvcounter/internal.rs:37-91 | the next increment of a page is atomic under interruption if and only if its current word is |
| `CounterPage.ReadPageCount` | kernel/h1/src/nvcounter/internal.rs:37-74 | the backward scan finds the count that the last non-blank word decides |
| `CounterPage.PageEmpty` | kernel/h1/src/nvcounter/internal.rs:94-100 | empty exactly when the count is zero, exactly when all words are blank |
| `CounterPage.HighMonotone` | kernel/h1/src/nvcounter/internal.rs:109-117 | striking the high page never lowers the value |
| `NvCounter.CountedValue` | kernel/h1/src/nvcounter/internal.rs:109-117 | each step of increment and rollover keeps or raises the value; exactly the committing strike raises it by one |
| `NvCounter.FlashCounter.StartIncrement` | kernel/h1/src/nvcounter/internal.rs:78-91 | starts the write that counts once on that page, or reports a full page |
| `NvCounter.FlashCounter.InitializeCounter` | kernel/h1/src/nvcounter/capsule.rs:80-95 | when idle, starts the erasure if and only if the flash accepts it or is still busy, and leaves a running operation alone; otherwise changes nothing |
| `NvCounter.FlashCounter.ReadAndIncrement` | kernel/h1/src/nvcounter/capsule.rs:97-169 | returns the current value and begins the step that fits the state of the two pages, or waits for the one under way, if and only if the counter is idle, below its maximum and the flash accepts or is busy; otherwise changes nothing |
| `NvCounter.FlashCounter.EraseDone` | kernel/h1/src/nvcounter/capsule.rs:177-238 | outside initialization the value is unchanged, even by a failed erase, and the strike of the high page begins; in an initialization, whether the high page is erased next or the end is reported; a reported success reads zero |
| `NvCounter.FlashCounter.WriteDone` | kernel/h1/src/nvcounter/capsule.rs:240-309 | the value never goes back; on success it rises by one exactly when success is reported; which callback comes when, with the code of the flash on failure, and which background step begins |
| `NvCounter.FlashCounter.PowerLoss` | kernel/h1/src/nvcounter/capsule.rs:18-66 | at every moment outside initialization losing power keeps the value or completes the ongoing increment |
| `NvCounter.Initialization` | kernel/h1/src/nvcounter/capsule.rs:80-309 | under every behaviour of the flash: an initialization is accepted if and only if the flash accepts the first erase or is busy; an accepted one succeeds if and only if no write is under way and each erase it needs is accepted and succeeds, and then the value is zero |
| `NvCounter.RolloverUnderWay` | kernel/h1/src/nvcounter/capsule.rs:97-309 | on a full low page every run of an increment and two completions without errors ends idle with a write under way, the state in which an initialization fails |
| `NvCounter.Run` | kernel/h1/src/nvcounter/capsule.rs:80-309 | over every run with flash failures, torn contents and power losses, every event has its reply and the contract of its operation; the value never decreases; each acknowledged increment finds the pages at exactly one more than it read, and they strictly increase; undisturbed runs count exactly these |
| `NvCounter.RunCounts` | kernel/h1/src/nvcounter/capsule.rs:80-309 | the same of every sequence of views and replies that the contracts of the operations allow |
| `NvCounter.Acknowledged` | kernel/h1/src/nvcounter/capsule.rs:97-309 | on a working flash every increment of an idle counter below its maximum is accepted, and acknowledged with the value raised by one at the third completion at the latest, whatever a loss of power or a rollover has left |
| `NvSyscall.NvCounterSyscall.HandleFailedInit` | kernel/h1_syscalls/src/nvcounter_syscall.rs:68-77 | exactly the apps with a queued request are answered with code 0, none is lost and none stays queued |
| `NvSyscall.NvCounterSyscall.DoNextOp` | kernel/h1_syscalls/src/nvcounter_syscall.rs:83-111 | the first queued app whose request the counter accepts becomes the current one; exactly the queued apps before it, whose requests the counter refused, get code 0; the others wait on, and nobody waits when nothing is ongoing. The finished request gets its callback although the value field may already have been overwritten: a success with the counter's value, a failure with a value between the one read and the counter's |
| `NvSyscall.NvCounterSyscall.StartQueued` | kernel/h1_syscalls/src/nvcounter_syscall.rs:90-103 | a queued request becomes the ongoing one if and only if the counter accepts it, and gets code 0 otherwise |
| `NvSyscall.QueueMoves` | kernel/h1_syscalls/src/nvcounter_syscall.rs:83-111 | while flash and counter accept requests, the first queued app alone leaves the queue, becomes the current one, and nobody is told of a failure |
| `NvSyscall.NvCounterSyscall.InitializeCounter` | kernel/h1_syscalls/src/nvcounter_syscall.rs:59-64 | an accepted initialization leaves the requests alone; a refused one sets the failure flag and fails exactly the queued requests with code 0 |
| `NvSyscall.NvCounterSyscall.ReadAndIncrement` | kernel/h1_syscalls/src/nvcounter_syscall.rs:113-147 | which return code comes exactly when, for both grant entries and a refusing counter; exactly an accepted request becomes owed |
| `NvSyscall.NvCounterSyscall.Subscribe` | kernel/h1_syscalls/src/nvcounter_syscall.rs:149-154 | replaces the app's callback and nothing else |
| `NvSyscall.NvCounterSyscall.InitializeDone` | kernel/h1_syscalls/src/nvcounter_syscall.rs:175-183 | the failure flag mirrors the outcome; as nobody can be queued during an initialization, nothing becomes due and nothing begins |
| `NvSyscall.NvCounterSyscall.IncrementDone` | kernel/h1_syscalls/src/nvcounter_syscall.rs:185-194 | the app is answered, on success with the value it read plus one, on failure with a value between the one read and the counter's; then the queue moves on as in `DoNextOp` |
| `NvSyscall.FlashReports` | kernel/h1_syscalls/src/nvcounter_syscall.rs:174-195 | a completion of the flash, through the counter to the driver, keeps the invariant of the whole stack; either the ongoing request goes on, or it is answered, with code 2 and the value read plus one exactly when the flash has succeeded and the counter has counted, and the queue moves on; without an ongoing request nothing becomes due |
| `NvSyscall.RunSystem` | kernel/h1_syscalls/src/nvcounter_syscall.rs:59-195 | over every interleaving every event has its answer and the contract of its operation; for each app, commands answered with SUCCESS = callbacks due + queued + ongoing; every success callback answers the request that was ongoing with the value read plus one; success values strictly increase since the last initialization, and since the start of the run if it contains none; no request fails while flash and counter accept requests |
| `NvSyscall.RunEarns` | kernel/h1_syscalls/src/nvcounter_syscall.rs:83-195 | in every run each success callback became due at a completion of the flash while a request of its app was ongoing, and reports one more than the counter held until then |
| `NvSyscall.RunServes` | kernel/h1_syscalls/src/nvcounter_syscall.rs:83-195 | in every run in which the flash refuses no app, the counter stays below its maximum and no initialization is requested, no failure becomes due |
| `NvSyscall.RunGrants` | kernel/h1_syscalls/src/nvcounter_syscall.rs:113-147 | in every run what is owed to an app grows exactly by its commands answered with SUCCESS |
| `NvSyscall.SinceKept` | kernel/h1_syscalls/src/nvcounter_syscall.rs:59-195 | without a requested initialization the ordered callbacks go back to the start of the run |
| `HealthTest.TrailAppend` | userspace/u2f_app/fips_health_tests.c:30-45 | the counters for trailing zeros and ones, updated with the mask, are those of the whole stream |
| `HealthTest.WordCreatesRun` | userspace/u2f_app/fips_health_tests.c:23-45 | for cutoffs of at least 32 a word completes a forbidden run exactly when the word test trips |
| `HealthTest.RepetitionCountTestN` | userspace/u2f_app/fips_health_tests.c:57-82 | succeeds exactly when there are enough words and the bit stream contains no run of the cutoff length |
| `HealthTest.StreamingTest.Test` | userspace/u2f_app/fips_health_tests.c:23-45 | the error is raised exactly at the word that completes a forbidden run |
| `HealthTest.StreamingTest.IsInitialized` | userspace/u2f_app/fips_health_tests.c:47-47 | true exactly after enough words |
| `HealthTest.MissesShortCutoff` | userspace/u2f_app/fips_health_tests.c:23-45 | for every cutoff from 2 to 31 a family of inputs passes the test and contains a forbidden run |
| `HealthTest.ExactIff` | userspace/u2f_app/fips_health_tests.c:23-45 | on two words the test finds exactly the runs if and only if the cutoff is not between 2 and 31 |
| `P256Int.Cmp` | userspace/u2f_app/p256.c:27-40 | the sign of the difference of the 256-bit numbers |
| `P256Int.AddD` | userspace/u2f_app/p256.c:43-53 | exact addition of a digit, with the carry out |
| `P256Int.FromBin` | userspace/u2f_app/p256.c:89-97 | the digits hold the big-endian number of the bytes |
| `P256Int.ToBin` | userspace/u2f_app/p256.c:99-111 | the bytes hold the number of the digits |
| `P256Int.KeyFromBytes` | userspace/u2f_app/p256_ecdsa.c:951-962 | accepts exactly numbers up to n - 2 and returns the number plus one, in [1, n - 1]; a refused string has no key and leaves the output alone |
| `P256Int.KeysOneToOne` | userspace/u2f_app/p256_ecdsa.c:951-962 | a key is accepted from one byte string only |
| `P256Int.KeysOnto` | userspace/u2f_app/p256_ecdsa.c:951-962 | every scalar in [1, n - 1] is the key of an accepted byte string |
| `Drbg.Drbg.constructor` | userspace/u2f_app/drbg.c:64-70 | the state after instantiation with a seed |
| `Drbg.Drbg.Update` | userspace/u2f_app/drbg.c:31-56 | HMAC_DRBG_Update of NIST SP 800-90A, with and without data |
| `Drbg.Drbg.Reseed` | userspace/u2f_app/drbg.c:58-62 | update, and the counter back to one |
| `Drbg.Drbg.Generate` | userspace/u2f_app/drbg.c:77-100 | the error codes, and otherwise exactly the bytes and the state that the standard prescribes; errors change nothing |
| `Drbg.InputFirst` | userspace/u2f_app/drbg.c:82-84 | with additional input the output is that of the generator updated with it |
| `Drbg.NoOutput` | userspace/u2f_app/drbg.c:77-100 | without output the secret is updated with the additional input twice, or once without it |
| `Drbg.BlockFirst` | userspace/u2f_app/drbg.c:86-94 | the first 32 bytes are the hash of V, and everything else, the secret included, is that of the generator that keeps them as its V |
| `Drbg.Prefix` | userspace/u2f_app/drbg.c:86-94 | an output that ends inside a block is a prefix of the one that ends with it, and leaves the same secret |
| `Drbg.InputLast` | userspace/u2f_app/drbg.c:96-97 | after whole blocks the last one serves as V when the additional input comes again |
| `Drbg.UpdateTells` | userspace/u2f_app/drbg.c:31-56 | at a hash that tells its messages apart: what the update function has hashed with which key, tag 0 first and tag 1 only with data |
| `Drbg.Pick` | userspace/u2f_app/p256.c:58-72 | ends after at most 10000 - reseed_counter draws; on success the scalar is one more than the first candidate up to n - 2, hence in [1, n - 1]; on failure no candidate was acceptable and the output is one more than what was left in the local variable, modulo 2^256 |
| `Drbg.DigitsLittleEndian` | userspace/u2f_app/p256.c:58-72 | random bytes are taken as a number with the least significant byte first |
| `Drbg.FirstCandidate` | userspace/u2f_app/p256.c:58-72 | the first candidate is the hash of V after the update with the data |
| `Drbg.NextCandidate` | userspace/u2f_app/p256.c:58-72 | every other candidate is the first one after another draw |
| `Drbg.PicksOne` | userspace/u2f_app/p256.c:55-72 | with a hash that is always zero the first candidate is zero, so that the scalar picked is 1 |
| `Der.IntBodyParses` | userspace/u2f_app/asn1.c:57-101 | every number is read back from its contents octets |
| `Der.IntBodyUnique` | userspace/u2f_app/asn1.c:57-101 | contents octets in minimal form are the encoding of their number |
| `Der.IntBodyShortest` | userspace/u2f_app/asn1.c:57-101 | no shorter byte string with a clear top bit has the value |
| `Der.LenExact` | userspace/u2f_app/asn1.c:26-40 | the length octets are right if and only if the length is below 65536 |
| `Der.LenShortest` | userspace/u2f_app/asn1.c:26-40 | no definite form of a size below 65536 is shorter than the length octets |
| `Der.TlvParses` | userspace/u2f_app/asn1.c:44-54 | an element is read back with its contents, whatever follows it |
| `Der.TlvUnique` | userspace/u2f_app/asn1.c:44-54 | what the strict parser accepts is the encoding of what it returns |
| `Der.SigParses` | userspace/u2f_app/asn1.c:104-110 | a signature is read back as r and s |
| `Der.SigUnique` | userspace/u2f_app/asn1.c:104-110 | the encoding is canonical: nothing else parses to the pair |
| `Der.SigExample` | userspace/u2f_app/asn1.c:104-110 | the nine octets of the signature (1, 128) |
| `Der.SigLength` | userspace/u2f_app/asn1.c:149-154 | 256-bit numbers take at most 72 bytes |
| `Asn1.Writer.P256Integer` | userspace/u2f_app/asn1.c:81-101 | appends the minimal INTEGER of every number, except that zero is written without contents when the byte behind the array is below 128 |
| `Asn1.Writer.Integer` | userspace/u2f_app/asn1.c:57-78 | appends the minimal INTEGER of every 32-bit number |
| `Asn1.ByteLength` | userspace/u2f_app/asn1.c:57-78 | the byte count derived from clz is that of the base-256 representation, and a bit count divisible by eight means a leading zero |
| `Asn1.Writer.Seq` | userspace/u2f_app/asn1.c:44-54 | tag and length stand at the start and the contents directly behind them when the reserved header is large enough; the bytes kept otherwise; nothing before is touched |
| `Asn1.Writer.CloseSeq` | userspace/u2f_app/include/asn1.h:52-61 | with a large enough header, what was written since the opening becomes the contents of one element, behind everything written before: so also when nested |
| `Asn1.Writer.Signature` | userspace/u2f_app/asn1.c:104-110 | appends the sequence of the two integers as written, zeros included |
| `Asn1.SigP` | userspace/u2f_app/asn1.c:149-154 | at most 72 bytes for all r and s; they parse back to r and s if and only if neither is a zero written without contents, and are no signature otherwise |
| `FlashPage.RleBuilder.Append` | userspace/nvcounter_test/src/fake_flash.rs:301-333 | stands for the words appended so far with neighbouring runs different; panics exactly when the words have more than five maximal runs |
| `FlashPage.ExpandAt` | userspace/nvcounter_test/src/fake_flash.rs:221-233 | a word lies in the run whose limits enclose it |
| `FlashPage.RunsPrefix` | userspace/nvcounter_test/src/fake_flash.rs:235-254 | a prefix has no more maximal runs than the whole, so that an early panic is never premature |
| `FlashPage.FakePage.Erase` | userspace/nvcounter_test/src/fake_flash.rs:213-217 | all 512 words read as ones |
| `FlashPage.FakePage.Read` | userspace/nvcounter_test/src/fake_flash.rs:221-233 | reads the plain array, and zero behind its end |
| `FlashPage.FakePage.Write` | userspace/nvcounter_test/src/fake_flash.rs:235-254 | the page becomes the overwritten plain array, with run lengths summing to 512; the write panics exactly when that array has more than five maximal runs, and then changes nothing |
| `SpiFifo.Distance` | kernel/h1/src/spi_device.rs:868-890 | the case distinction on 9-bit addresses and lap bits computes the distance of any two positions at most 512 apart |
| `SpiFifo.Sps.GetReceivedData` | kernel/h1/src/spi_device.rs:860-910 | returns the oldest command cut to the buffer, leaves the rest of the buffer alone and removes exactly that command; returns zero when there is none |
| `SpiFifo.LosslessIff` | kernel/h1/src/spi_device.rs:860-910 | no byte is lost if and only if every buffer was at least as large as its command |
| `SpiFifo.Run` | kernel/h1/src/spi_device.rs:860-910 | over every run the ring looks like a plain queue of commands: in order, none twice, none skipped |
| `SpiFifo.QueueDelivers` | kernel/h1/src/spi_device.rs:860-910 | all commands that the ring can hold at once come back unchanged, one for each call and in order |
| `Cmac.DoublingIsTimesX` | userspace/u2f_app/cmac.c:23-33 | the shifted and corrected block is x times the block in GF(2^128), and is the only such block |
| `Cmac.SubkeysAreMultiples` | userspace/u2f_app/cmac.c:56-63 | the subkeys are x and x^2 times the encryption of the zero block: K1 and K2 of section 2.3 of RFC 4493 |
| `Cmac.XorAdds` | userspace/u2f_app/cmac.c:35-41 | adding blocks adds their polynomials |
| `Cmac.LeftShift` | userspace/u2f_app/cmac.c:23-33 | the byte loop with its 16-bit accumulator doubles the block |
| `Cmac.XorInto` | userspace/u2f_app/cmac.c:35-41 | byte-wise sum of two blocks, in place |
| `Cmac.ChainAppend` | userspace/u2f_app/cmac.c:64-83 | chaining one more block is one more call of the cipher |
| `Cmac.ChunkStep` | userspace/u2f_app/cmac.c:64-83 | one pass of the chunk loop, with padding and subkey, takes the chain of whole blocks one block further or to the finished code |
| `Cmac.OneWholeBlock` | userspace/u2f_app/cmac.c:64-83 | a message of one whole block is masked with K1 and encrypted |
| `Cmac.OnePartialBlock` | userspace/u2f_app/cmac.c:64-83 | a shorter message is padded with one bit and zeros, masked with K2 and encrypted |
| `Cmac.WholeBlockInFront` | userspace/u2f_app/cmac.c:64-83 | a block in front of a whole block is encrypted and added to it: the code is that of the shorter message |
| `Cmac.PartialBlockBehind` | userspace/u2f_app/cmac.c:64-83 | a block in front of a partial one is encrypted and added to the padded and masked block |
| `Cmac.Generate` | userspace/u2f_app/cmac.c:43-87 | succeeds exactly when no cipher call fails; the tag is the code of RFC 4493 for every non-empty message, which the four laws of message shapes determine; a failure leaves the tag alone |
| `Cmac.EmptyMessage` | userspace/u2f_app/cmac.c:62-83 | on the empty message the tag agrees with RFC 4493 exactly when the cipher maps the padded block to zero |
| `Cmac.EmptyMessageDiffers` | userspace/u2f_app/cmac.c:62-83 | a cipher on which it does not |
| `Cmac.Verify` | userspace/u2f_app/cmac.c:89-103 | accepts exactly the prefixes of the tag and of what follows it on the stack |

## Left out

- That chords and tangents make the curve a group, so that the addition formula is its group law, primality of p and n, Fermat's theorem: hypotheses of the theorems.
- P256Verify: for coordinates that are not tame, namely an x for which the curve check drops a borrow and yet passes, and pairs whose sum is 2^256 + p or more, it promises only that the register is stored or the routine does not end.
- EcdsaVerify: same as P256Verify; `SignThenVerify` inherits this.
- Run: in `NvCounter`, the pages change when the flash reports completion or power is lost, not gradually before; a write that became visible before its completion is not captured.
- RunSystem: no power losses, a fixed set of apps, no app that dies between command and callback.
- Timing of lock timeouts and transaction timeouts in the transport, and the branches for DFU and FIPS self tests that the configuration switches off.
- SendResponse: handlers are assumed to reply at most the maximal message length.
- StreamingTest: counters are unbounded after the error has been raised; clz and ctz of zero are taken as 32.
- HostCommand: a model of the SPI hardware; what it stores when a command overflows the ring, and the depth of its queue of end pointers.
- The adaptive proportion test, `x509.c`, the handlers in `u2f.c` and the personality code: field lists and glue around modelled operations.
- SHA-256, HMAC and AES internals: parameters of the model.
- The flash driver's programming pulses, the passthrough filters of the SPI device and the other register drivers: sequences of register accesses.
- System call wrappers, board set-up, tools, test programs, printing, LEDs, and timing or side-channel behaviour.
