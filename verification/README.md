# Verified models of the numeric, concurrent, buffering and text code of a Go tree

This project models sixteen pieces of a Go 1.15 source tree and proves what they
are for. `dafny verify dfyconfig.toml` checks everything.

- **Floating point** (`Scaling`, `Words`, `WideShifts`, `Binary64`, `RoundToGrid`,
  `Fma`, `Sqrt`, `Mod`). A double is its 64-bit pattern. `Binary64.Mag` is the
  magnitude of a pattern as a whole number of units of two to the -1074, with
  infinity at two to the 1024, and `Binary64.NearestEven` says that a pattern is
  nearest to an exact value among all patterns, ties going to the even one, which
  is roundTiesToEven of IEEE 754-2008 section 4.3.1. Powers of two are the
  recursive `Scaling.Scale`. Hardware `*` and `-` on doubles, which `ldexp` and
  `mod` use, are the exact value rounded once. `FMA`, `sqrt` and the loop of `mod`
  are methods on the words the code works on.
- **Protocols** (`Context` with `ContextCause`, `ContextProgress`, `ContextRelease`
  and `ContextEffects`, `Pipe` with `PipeErrors`, `Sieve`, `Linkcheck`, `Expvar` with
  `ExpvarCalls`). Each is a state
  machine: `Enabled` says which atomic step is possible, `Apply` (or `Step`) makes
  it, and `Exec` runs a list of steps, so a theorem about every list of steps that
  `Exec` accepts is a theorem about every interleaving. Atomic steps are a lock, a
  critical section that contains no other step, a channel rendezvous, or one
  operation of a concurrent map. `Context` keeps a call stack per goroutine,
  because `cancel` calls itself while it holds locks.
- **Buffers, tables and search** (`Buffers`, `Stream`, `Scanner`, `BufReader`, `Slices`,
  `WasmRefs`, `Solitaire`). Classes and arrays are updated in place as in the
  source. `Stream.Source` is the reader underneath: the bytes it still has and a
  plan of how it answers each call, so that every way of cutting the bytes up is
  some plan. Methods are proved against functions on immutable values, and the
  laws are lemmas about those functions.
- **Printers and parsers** (`Text`, `Base64`, `EncodedWord`, `HeaderText`, `Grammar`,
  `MediaParams`, `Sorting`, `MediaType`, `MediaTrailing`, `MediaWritten`, `MediaPlain`,
  `MediaContinuations`, `TextForms`, `Html`, `HtmlRefs`). Strings are sequences of bytes. The round
  trips go through the exact text that the writers produce. What the parsers make of
  text from anybody else is stated against relations of their own that say how the
  standards let a value be written: `HeaderText` for encoded-words, `MediaWritten` for
  parameters, `HtmlRefs` for character references, with UTF-8 as the decoder `Text.Utf8`.

Things parameterised: the value of the hardware expression on `FMA`'s early return;
the entity table of the HTML code, of which only the length bound of
src/html/entity.go:2170-2172 and the names used by escaping are asked; the charset
reader of `DecodeHeader`; the web site that the crawler walks; the underlying
reader of the buffers; the number of primes asked of the sieve.

`Wrappers` holds the few shapes that all of them share.

Six findings about the code, each with its exact condition, for all inputs, and
with inputs that fail:

- `ldexp` is correctly rounded if and only if its exponent arithmetic stays inside
  an int; beyond that it wraps, and a huge result comes back as zero
  (`Mod.LdexpRounds`, `Mod.LdexpWraps`, `Mod.LdexpAtTheEnds`).
- `ParseMediaType` takes back what `FormatMediaType` writes if and only if no
  parameter name has a star and the names differ in lower case
  (`MediaType.RoundTrip`, `MediaType.StarIsLost`, `MediaType.CaseIsLost`).
- `ParseMediaType` accepts a semicolon at the end, but then returns before it
  stitches starred parameters together: the semicolon changes nothing if and only if
  none of them counts (`MediaTrailing.TrailingSemicolon`), and after formatted text
  it loses exactly the percent-encoded values (`MediaTrailing.SemicolonLosesEncoded`).
- After all calls on an `expvar.Map` have ended, its key list has every key that
  has a value, as the comment on `Do` says, if and only if no `Set` stored into a
  key that a `Delete` had emptied since the `Set` looked at it. It is enough that no
  `Delete` takes a value away between the Load and the Store of a `Set` of that key
  (`Expvar.ListIsComplete`, `Expvar.ApartIsComplete`, `Expvar.LostKey`).
- Text that needs no encoding is passed through by `Encode`, and `DecodeHeader`
  gives it back if and only if it finds no encoded-word in it; every encoded-word
  in UTF-8 is such a text that does not come back (`EncodedWord.PlainComesBack`,
  `EncodedWord.PlainMayDecode`).

- The number of a character reference counts modulo 2**32 in `UnescapeString`, so a
  number above 0x10FFFF does not always become the replacement character: it stands
  for itself below 2**31, and otherwise for what is left of it
  (`HtmlRefs.NumericReference`, `HtmlRefs.SmallNumber`, `HtmlRefs.LargeNumber`).

## Model

| member | source | states |
|---|---|---|
| `WideShifts.ShlPairValue` | src/math/fma.go:27-31 | shl on two words multiplies by two to the n whenever nothing falls off the top |
| `WideShifts.ShrPairValue` | src/math/fma.go:33-37 | shr on two words divides by two to the n, rounding down, for every count |
| `WideShifts.ShrCompressValue` | src/math/fma.go:39-63 | shrcompress keeps the quotient and one sticky bit: an even result is exact, an odd one lies strictly between its even neighbours, for every count |
| `WideShifts.CompressedTwice` | src/math/fma.go:39-63 | compressing in two steps is compressing once, so sticky bits may be taken repeatedly |
| `WideShifts.LeadingZerosPairValue` | src/math/fma.go:65-71 | lz is the exact number of leading zero bits of the pair |
| `RoundToGrid.RoundBitsValue` | src/math/fma.go:162-169 | the masked increment at the end is rounding of the 54-bit significand to nearest, ties to even |
| `RoundToGrid.WithinHalf` | src/math/fma.go:162-169 | the rounded significand is within half a unit of the exact value that the compressed significand stands for, strictly unless it is even |
| `RoundToGrid.GridIsNearest` | src/math/fma.go:162-169 | a significand within half a unit, encoded with its exponent, is the nearest double to the exact value, across binade boundaries and subnormals |
| `RoundToGrid.OverflowIsNearest` | src/math/fma.go:158-161 | when the exponent overflows, infinity is the correctly rounded result |
| `Fma.SplitValue` | src/math/fma.go:76-91 | split gives a normalised mantissa and exponent with exactly the value of the operand, subnormals included |
| `Fma.NormalisedProduct` | src/math/fma.go:110-128 | the 128-bit product is the exact product of the operands, shifted to a fixed position |
| `Fma.AddSignificands` | src/math/fma.go:139-145 | after a same-sign addition the compressed significand stands for the exact sum |
| `Fma.SubSignificands` | src/math/fma.go:146-155 | after a subtraction the compressed significand stands for the exact difference |
| `Fma.NormaliseDifference` | src/math/fma.go:151-154 | the renormalising shift after cancellation and the final compression lose nothing that matters |
| `Fma.AddOperands` | src/math/fma.go:130-169 | with the larger operand first, alignment with sticky bits, addition or subtraction, and one rounding give the nearest double to the exact sum, with its sign |
| `Fma.RoundAndEncode` | src/math/fma.go:157-169 | a compressed significand and its exponent are rounded once to nearest even and encoded; overflow goes to infinity |
| `Fma.FMA` | src/math/fma.go:95-169 | for finite nonzero x, y, z the result is x*y+z, exact, rounded once to nearest even, with the sign of a nonzero sum; a non-finite z is returned |
| `Binary64.RoundIsNearestEven` | src/math/fma.go:95-169 | the reference rounding is nearest with ties to even among all doubles |
| `Binary64.NearestIsRound` | src/math/fma.go:95-169 | a double is nearest-even for a value if and only if it is the reference rounding of it: the specification determines the result |
| `Binary64.NearestIsBetween` | src/math/fma.go:95-169 | nearest of all doubles, ties to even, is the same as nearer than both neighbours |
| `Binary64.NearestEvenUnique` | src/math/fma.go:95-169 | no value has two nearest-even doubles |
| `Binary64.NearestRescaled` | src/math/fma.go:95-169 | being nearest does not depend on the unit of measurement, in both directions |
| `Sqrt.RootBits` | src/math/sqrt.go:124-137 | the loop leaves q as the integer square root of m times two to the 54, and ix nonzero exactly when the root is inexact |
| `Sqrt.RootIteration` | src/math/sqrt.go:128-137 | one pass decides one more bit of the root and keeps the remainder exact |
| `Sqrt.ShiftUp` | src/math/sqrt.go:109-116 | the subnormal loop shifts the fraction up to its implicit bit and counts the shifts |
| `Sqrt.Normalise` | src/math/sqrt.go:107-123 | the significand and halved exponent stand for exactly the operand, with an even exponent |
| `Sqrt.RoundedRoot` | src/math/sqrt.go:138-143 | the root is never exactly halfway, rounding the last bit is within half a unit, and it never carries into the exponent |
| `Sqrt.SquareRoot` | src/math/sqrt.go:99-144 | for every positive finite double the result is strictly nearer to the square root than any other double; the special cases are as listed |
| `Sqrt.NearestRootOverReals` | src/math/sqrt.go:99-144 | the same read over the reals: no other double is as close to the real square root |
| `Mod.NormalizeValue` | src/math/bits.go:56-62 | normalize gives a normal number and an exponent with exactly the value of its argument |
| `Mod.FrexpValue` | src/math/frexp.go:18-33 | f is exactly the fraction times two to the exponent, the fraction in [1/2, 1), sign kept |
| `Mod.LdexpRounds` | src/math/ldexp.go:16-45 | ldexp is correctly rounded if and only if the exponent sums fit an int |
| `Mod.LdexpUndoesFrexp` | src/math/ldexp.go:16-45 | ldexp takes the fraction and exponent of frexp back to the number |
| `Mod.LdexpWraps` | src/math/ldexp.go:16-45 | otherwise a huge result comes back as zero and a tiny one as infinity |
| `Mod.LdexpAtTheEnds` | src/math/ldexp.go:16-45 | inputs that do: the largest int makes zero of every number of 2 or more, the smallest makes infinity of every normal number below 1 |
| `Mod.ShiftFits` | src/math/mod.go:35-41 | the shift that a pass uses gives the largest power-of-two multiple of y not above r |
| `Mod.OnePass` | src/math/mod.go:35-41 | every pass subtracts a multiple of y exactly, and the next shift is strictly smaller |
| `Mod.PassesBounded` | src/math/mod.go:35-41 | strictly decreasing shifts bound the passes by one more than the first shift |
| `Mod.ReduceLoop` | src/math/mod.go:35-41 | the loop leaves the exact remainder, with strictly decreasing shifts |
| `Mod.Remainder` | src/math/mod.go:23-46 | for finite x and finite nonzero y the result has the sign of x and the magnitude of the exact remainder; the loop runs at most one more time than its first shift; special cases as listed |
| `Binary64.DifferenceIsDouble` | src/math/mod.go:40-40 | the difference of a double and one between its half and itself is a double, which makes each subtraction exact |
| `Context.RunKeepsInv` | src/context/context.go:271-466 | every step of every kind of call keeps the invariant that ties locks, children, errors and call stacks together |
| `Context.StepNextChild` | src/context/context.go:454-458 | cancelling one more child under the lock of its parent keeps the invariant: each child is pending, cancelled, or being cancelled |
| `Context.StepInsert` | src/context/context.go:288-300 | linking a child under the lock of a parent without an error keeps the invariant |
| `Context.StepLockCancelled` | src/context/context.go:288-291 | finding the parent cancelled under its lock starts to cancel the child with that lock held, and keeps the invariant |
| `Context.StepHoldParent` | src/context/context.go:288-300 | the lock of a cancelled parent is released only when the child is cancelled and has handed that down |
| `Context.StepAfterwards` | src/context/context.go:348-358 | removeChild and the stopping of the timer happen only for a context that is cancelled and done handing it down, and keep the invariant |
| `Context.ReachableInv` | src/context/context.go:271-466 | every state of every interleaving of creations, cancels and timer firings satisfies the invariant |
| `Context.CancelReaches` | src/context/context.go:433-466 | once the lock of a cancelled context is free, every context attached below it has an error and a closed done channel |
| `Context.ClosedOnce` | src/context/context.go:440-452 | in every interleaving a done channel is closed at most once, and exactly when the context has an error |
| `Context.ErrSetByClose` | src/context/context.go:440-452 | only the closing step sets an error, the channel is open just before it, and no step changes an error |
| `Context.ErrIsFinal` | src/context/context.go:440-452 | the first error of a context is the one it keeps through every continuation of the run |
| `ContextCause.CancelHasCause` | src/context/context.go:433-466 | behind Canceled there is a call of the cancel function of the context or an ancestor, behind DeadlineExceeded a timer of one of them that fired or a deadline that WithDeadline found passed |
| `ContextProgress.LockOrder` | src/context/context.go:455-458 | a goroutine that holds a lock waits only for locks of proper descendants |
| `ContextProgress.NoDeadlock` | src/context/context.go:271-466 | in every interleaving, while some call has not finished, some goroutine can take a step |
| `ContextProgress.EveryScheduleEnds` | src/context/context.go:271-466 | without new calls no schedule goes on for more steps than a bound quadratic in the numbers of contexts and calls |
| `ContextProgress.StuckMeansDone` | src/context/context.go:271-466 | when no goroutine can take a step, every call has returned |
| `ContextRelease.CancelReleases` | src/context/context.go:433-466 | a cancelled context, with no cancel of it under way and its parent unlocked, is not among the children of its parent, has none itself, and no timer is going to fire for it |
| `ContextRelease.QuietIsReleased` | src/context/context.go:540-552 | when every call has returned, that holds for every cancelled context |
| `ContextRelease.ReachableRel` | src/context/context.go:271-300 | propagateCancel runs once for a context and before anyone else may cancel it, and what a cancelled context still holds some call is about to give back |
| `Context.ParentFound` | src/context/context.go:277-281 | a parent found closed has an error to pass on, and the goroutine for foreign parents is never started |
| `ContextEffects.CancelTakesEffect` | src/context/context.go:248-517 | when every call has returned, every context whose cancel function was called, or whose timer fired, is cancelled |
| `ContextEffects.DeadlineIsWatched` | src/context/context.go:477-517 | and a context with a deadline that is not cancelled has a timer that is going to fire |
| `ContextEffects.AllDescendantsCancelled` | src/context/context.go:271-308 | and no descendant of a cancelled context is left without an error, whenever it was created |
| `ContextEffects.ReachableEffects` | src/context/context.go:248-517 | in every interleaving a cancel that was asked for has taken effect or is still being carried out, and every new context is linked or still being linked |
| `Pipe.NothingLostNothingTwice` | src/io/pipe.go:50-104 | bytes copied out in handshake order are the counted bytes of the Writes in lock order, then the one chunk in flight, which is the next piece of the lock holder |
| `Pipe.NilMeansAll` | src/io/pipe.go:84-104 | a Write without an error has written everything, and with data left over always returns an error |
| `Pipe.ReadIsAllOrNothing` | src/io/pipe.go:50-65 | a Read without an error is one of those that took bytes; a failed one took none |
| `Pipe.ReadError` | src/io/pipe.go:67-73 | the error of a failed Read is the close error of the writer unless the read half was closed too |
| `Pipe.WriteError` | src/io/pipe.go:106-112 | the error of a failed Write is the close error of the reader unless the write half was closed too |
| `PipeErrors.ReadErrorIs` | src/io/pipe.go:67-121 | in terms of the calls of the run: a failed Read has ErrClosedPipe if its own half was closed in time, and otherwise what the first close of the other half to store was called with, EOF for nil |
| `PipeErrors.WriteErrorIs` | src/io/pipe.go:75-112 | the same for a failed Write, with ErrClosedPipe for nil |
| `PipeErrors.CloseMeansEOF` | src/io/pipe.go:67-121 | if the only closes of the run are closes of the writer without an error, every failed Read has EOF |
| `PipeErrors.CloseMeansClosedPipe` | src/io/pipe.go:75-112 | if the only closes of the run are closes of the reader without an error, every failed Write has ErrClosedPipe |
| `PipeErrors.OwnCloseMeansClosedPipe` | src/io/pipe.go:67-112 | if only one half is ever closed, the calls on that half that fail have ErrClosedPipe, whatever the close was given |
| `PipeErrors.ReachableClosers` | src/io/pipe.go:75-121 | in every interleaving the error stored for a half is what the first close of it to store leaves |
| `PipeErrors.TakenFrom` | src/io/pipe.go:50-104 | a Read that took anything took all it had room for, or all that was left of the one Write it met |
| `PipeErrors.WriteMeetsRead` | src/io/pipe.go:84-104 | a Write that counted something or returned without an error met a Read, even if it had no data |
| `PipeErrors.ClosedForGood` | src/io/pipe.go:50-104 | a Read or Write that starts after a close moves no bytes, and if it returns it returns an error |
| `Pipe.ReplyIsAwaited` | src/io/pipe.go:57-61 | a count on rdCh is always awaited, by the lock holder alone |
| `Pipe.CloseWakesAll` | src/io/pipe.go:75-121 | after a close, when no step is possible any more every Read and every Write has returned |
| `Pipe.EveryScheduleEnds` | src/io/pipe.go:50-121 | without new calls no schedule goes on for more than six steps for each Write, four for each Read and two for each close |
| `Pipe.OneSideWaits` | src/io/pipe.go:50-104 | without a close, what is left hanging when no step is possible is Reads only or Writes only |
| `Pipe.ReachableInv` | src/io/pipe.go:50-121 | the invariant holds over every interleaving of readers, writers and closers |
| `Pipe.AckKeepsInv` | src/io/pipe.go:95-98 | acknowledging moves the chunk in flight, whole, to the count of the writer, and keeps the invariant |
| `Sieve.Streams` | doc/play/sieve.go:8-36 | each channel has carried, in order, a prefix of the integers from 2 up that the primes before it do not divide |
| `Sieve.KthIsKthPrime` | doc/play/sieve.go:26-36 | what main has received is exactly the list of the first primes |
| `Sieve.NoDeadlock` | doc/play/sieve.go:26-36 | until main has its primes some rendezvous is possible |
| `Sieve.EveryScheduleFinishes` | doc/play/sieve.go:26-36 | no schedule, fair or not, takes more steps than a fixed bound, and one that cannot go on has printed exactly the primes asked for |
| `Sieve.StepKeepsInv` | doc/play/sieve.go:8-23 | a rendezvous keeps each filter linked: its output and what it holds are its input filtered |
| `Sieve.NextPrime` | doc/play/sieve.go:16-23 | the least number above 1 that the first primes do not divide is the next prime |
| `Sieve.FirstPrimesUnique` | doc/play/sieve.go:26-36 | there is only one list of the first n primes |
| `Linkcheck.WaitMeansComplete` | misc/linkcheck/linkcheck.go:173-180 | once Wait has returned, the crawled pages are exactly those reachable from the root, each fetched once, and nobody can still send, so the close is safe |
| `Linkcheck.WaitGroupIsExact` | misc/linkcheck/linkcheck.go:78-102 | the wait group counts exactly the pages noted and not finished |
| `Linkcheck.CrawlTerminates` | misc/linkcheck/linkcheck.go:112-180 | on a site with finitely many pages every schedule ends, with every reachable page fetched once |
| `Linkcheck.NoDeadlock` | misc/linkcheck/linkcheck.go:112-180 | some goroutine can move if and only if main and crawlLoop have not both ended |
| `Linkcheck.FollowKeepsInv` | misc/linkcheck/linkcheck.go:120-171 | handing one more link to crawl keeps the invariant that every link is noted or still to be followed |
| `Expvar.StepKeepsInv` | src/expvar/expvar.go:141-229 | per key, list membership plus pending changes is at most one, and a key has a value exactly if that makes one or it was stored late |
| `Expvar.ListedHaveValues` | src/expvar/expvar.go:141-152 | in every interleaving the list is strictly sorted and each of its keys has a value |
| `Expvar.DoNeverFails` | src/expvar/expvar.go:222-229 | Do never meets a missing value |
| `Expvar.NoDeadlock` | src/expvar/expvar.go:141-229 | while a call is under way some call can move |
| `Expvar.EveryScheduleEnds` | src/expvar/expvar.go:141-229 | without new calls no schedule goes on for more steps than a bound in the numbers of keys and calls |
| `Expvar.StuckMeansDone` | src/expvar/expvar.go:141-229 | when no call can take a step, every call has returned |
| `Expvar.ListIsComplete` | src/expvar/expvar.go:219-229 | when no call is under way the list has every key with a value if and only if no Set stored into a key emptied since it looked |
| `Expvar.ApartIsComplete` | src/expvar/expvar.go:160-229 | the list has every key with a value whenever no Delete took a value away between the Load and the Store of a Set of the same key |
| `Expvar.LostKey` | src/expvar/expvar.go:160-172 | a run of two Sets and a Delete after which a key has a value that no Do will visit |
| `ExpvarCalls.SetTakesEffect` | src/expvar/expvar.go:160-172 | after a Set that ran by itself, from any state that calls can leave, the key has the value, and no other key has changed |
| `ExpvarCalls.DeleteTakesEffect` | src/expvar/expvar.go:208-217 | after a Delete that ran by itself a key of the list has no value any more, and nothing else has changed |
| `ExpvarCalls.AddTakesEffect` | src/expvar/expvar.go:174-206 | after an Add that ran by itself the key has a value, a new one only if it had none, and nothing else has changed |
| `ExpvarCalls.ValuesAreGiven` | src/expvar/expvar.go:160-206 | in every interleaving each value was given to a Set of its key, or is the new one of an Add of it |
| `Scanner.Scanner.Scan` | src/bufio/scan.go:135-235 | each call returns; with a well-behaved reader its token is the first line of the pending input whatever the chunks, false exactly at the end, and a line longer than the limit gives ErrTooLong; with any reader it is the first line of what was read, and nothing is read after an error |
| `Scanner.AllTokens` | src/bufio/scan.go:126-235 | with any reader the tokens are the lines of all that it gave before its first error, or those before a line that does not fit; with a well-behaved one and lines that fit they are the lines of the whole input, whatever the buffer |
| `Scanner.LinesCut` | src/bufio/scan.go:350-364 | lines that end where they are cut do not depend on what follows |
| `Scanner.LinesWritten` | src/bufio/scan.go:335-364 | lines written with LF or CRLF, the last one with or without its end, are read back without them |
| `Scanner.FoundIsFirst` | src/bufio/scan.go:350-364 | a token cut from a part of the input is the first line of all of it |
| `Scanner.LineFound` | src/bufio/scan.go:350-364 | a newline in the data decides the line whatever comes after it |
| `Scanner.LineDoesNotFit` | src/bufio/scan.go:189-196 | a full buffer without a newline holds the beginning of a line that does not fit |
| `Scanner.Scanner.Grow` | src/bufio/scan.go:189-209 | a full buffer grows without losing data, or the line is too long |
| `Scanner.Scanner.ReadSome` | src/bufio/scan.go:210-233 | the reads of a round bring bytes or an error, and a well-behaved reader is never accused of making no progress |
| `Scanner.Scanner.TryToken` | src/bufio/scan.go:145-172 | the buffered data is cut as the split function says, and the panic for tokens that do not advance is unreachable |
| `Stream.Source.Read` | src/bufio/scan.go:213-219 | a reader gives some of the bytes it has left, or breaks the rules, as its plan says |
| `BufReader.Reader.Fill` | src/bufio/bufio.go:87-115 | buffered bytes stay in front, new ones come behind them, and an error is set if there are none |
| `BufReader.Reader.Peek` | src/bufio/bufio.go:130-157 | the next bytes without handing them out, an error exactly if there are fewer than asked |
| `BufReader.Reader.Read` | src/bufio/bufio.go:198-244 | with data buffered, hands out the smaller of len(p) and what is buffered, makes no underlying read and returns no error; with nothing buffered and no stored error, what one underlying read gave decides n; what is handed out and what stays pending make up what was pending; a stored error comes when nothing is left |
| `BufReader.Reader.ReadByte` | src/bufio/bufio.go:248-260 | the next byte of the stream; an error exactly at its end |
| `BufReader.Reader.UnreadByte` | src/bufio/bufio.go:267-282 | the last byte handed out is pending again; the exact conditions of failure |
| `BufReader.Reader.ReadSlice` | src/bufio/bufio.go:332-371 | the stream through the first delimiter within the buffer, or all that is buffered and why |
| `BufReader.Reader.CollectFragments` | src/bufio/bufio.go:431-454 | the pieces make up one line, which ends in its only delimiter exactly if there is no error |
| `BufReader.Reader.ReadBytes` | src/bufio/bufio.go:463-474 | precisely the stream through the first delimiter, whatever the buffer size, or all of it with the final error |
| `BufReader.Drive` | src/bufio/bufio.go:87-474 | over any sequence of operations, bytes returned less those unread, then the buffered bytes, are exactly the bytes taken from the reader |
| `EncodedWord.Encode` | src/mime/encodedword.go:35-68 | text of printable ASCII and tabs is returned as it is, and the result is always such text; for UTF-8, encoded-words of at most 75 characters, none of which cuts a character or ends before the next one would no longer fit, and any DecodeHeader gives the text back; for other charsets one word, which decodes to the conversion by the reader |
| `EncodedWord.OneWordDecodes` | src/mime/encodedword.go:240-312 | one encoded-word decodes to the conversion of its content from its charset, or to the error of the reader |
| `EncodedWord.QEncode` | src/mime/encodedword.go:114-141 | the splitting of the Q encoding yields words that fit, cover the text, cut no character, and have no room for one character more |
| `EncodedWord.BEncode` | src/mime/encodedword.go:82-110 | the same for base64 |
| `EncodedWord.SplitDecodes` | src/mime/encodedword.go:240-312 | encoded-words for a text decode to that text: the spaces between them vanish |
| `EncodedWord.WordsDecode` | src/mime/encodedword.go:254-304 | words in a row decode to their contents in a row |
| `EncodedWord.WordFound` | src/mime/encodedword.go:254-283 | a word is found where it starts, with its parts, whatever follows it |
| `EncodedWord.QRoundTrip` | src/mime/encodedword.go:372-398 | Q-decoding undoes Q-encoding for every byte string |
| `EncodedWord.QDecode` | src/mime/encodedword.go:372-398 | the array-filling loop computes the Q-decoding, errors included |
| `EncodedWord.WriteQString` | src/mime/encodedword.go:144-157 | the loop appends the Q encoding |
| `TextForms.QTextForm` | src/mime/encodedword.go:143-157 | printable ASCII but = ? _ stands for itself, a space is an underscore, every other byte is in hexadecimal with capitals |
| `EncodedWord.DecodeHeader` | src/mime/encodedword.go:240-312 | the loop computes the decoding function, whose meaning is the laws of HeaderText |
| `HeaderText.HeaderDecodes` | src/mime/encodedword.go:240-369 | for any text with words in it, each with any charset, either encoding written in any legal way, and any other text around them: it decodes to what the words say, white space alone between two words dropped and all other text kept, or to the error of a word that the reader fails on |
| `HeaderText.CarriedDecodes` | src/mime/encodedword.go:314-398 | every way to write a content in either encoding, in either case of letter, and base64 in lines, decodes to the content |
| `HeaderText.ConvertSays` | src/mime/encodedword.go:325-354 | UTF-8 content is kept, ISO-8859-1 and US-ASCII are given in UTF-8, other charsets are up to the reader, by name in any case of letters |
| `HeaderText.Latin1Means` | src/mime/encodedword.go:329-332 | each byte of ISO-8859-1 becomes the UTF-8 form of the code point of the same number |
| `HeaderText.AsciiMeans` | src/mime/encodedword.go:333-340 | each byte of US-ASCII is kept, and each other byte becomes the replacement character |
| `EncodedWord.PlainComesBack` | src/mime/encodedword.go:35-40 | text that needs no encoding comes back from DecodeHeader if and only if DecodeHeader finds no encoded-word in it, for every reader whose ASCII results are no longer than what it converts |
| `EncodedWord.PlainComesBackUnread` | src/mime/encodedword.go:35-40 | the same for a nil CharsetReader |
| `EncodedWord.EchoComesBack` | src/mime/encodedword.go:325-351 | a reader that is not of that kind and gives an encoded-word back as it is |
| `EncodedWord.WordlessDecodes` | src/mime/encodedword.go:240-312 | any header without an encoded-word decodes to itself, whatever the reader |
| `EncodedWord.PlainMayDecode` | src/mime/encodedword.go:35-40 | every UTF-8 encoded-word is itself text that needs no encoding, and decodes to its content, which is something else |
| `Base64.RoundTrip` | src/mime/encodedword.go:82-95 | base64 decoding undoes encoding |
| `Base64.EncodeMeans` | src/encoding/base64/base64.go:125-174 | each four characters stand, in the alphabet of RFC 4648, for the 24 bits of three bytes, most significant first, padded at the end |
| `Text.RunesSplit` | src/unicode/utf8/utf8.go:200-234 | cutting a string at a character boundary, its characters are those of the parts |
| `Text.RuneLenOfPrefix` | src/unicode/utf8/utf8.go:200-234 | the width of a character does not depend on what follows it |
| `Text.RuneLenOfUtf8` | src/unicode/utf8/utf8.go:200-234 | a scalar value in the UTF-8 of RFC 3629, whatever follows it, is found with its whole width |
| `Text.RuneIsUtf8` | src/unicode/utf8/utf8.go:200-234 | and what is found as a character of more than one byte is a scalar value in UTF-8 |
| `MediaType.RoundTrip` | src/mime/mediatype.go:20-102 | when FormatMediaType gives a text, ParseMediaType gives the lower-cased type and the same values under lower-cased names if and only if no name has a star and they differ in lower case |
| `MediaType.StarIsLost` | src/mime/mediatype.go:20-102 | a starred name that is written and not read back |
| `MediaType.CaseIsLost` | src/mime/mediatype.go:20-102 | two names that differ in case only, written and not read back |
| `MediaTrailing.TrailingSemicolon` | src/mime/mediatype.go:164-172 | one more semicolon at the end changes nothing if and only if the text is refused in any case, or it does not end in a semicolon already and no starred parameter counts |
| `MediaTrailing.SemicolonLosesEncoded` | src/mime/mediatype.go:164-172 | a semicolon after what FormatMediaType has written loses exactly the values that are percent-encoded |
| `MediaTrailing.ParamJoin` | src/mime/mediatype.go:326-352 | a parameter is consumed or not, and stops at the same place, whether a semicolon follows the text or not |
| `MediaType.FormattedOrNot` | src/mime/mediatype.go:20-49 | a text comes out exactly when the type and all names are tokens |
| `MediaType.FormatMediaType` | src/mime/mediatype.go:20-102 | the type in lower case and the parameters, in the order of their names, each in the form of TextForms.ParamForm |
| `MediaType.WriteParam` | src/mime/mediatype.go:44-100 | one parameter as a token, quoted or percent-encoded |
| `TextForms.ParamForm` | src/mime/mediatype.go:43-102 | what is written for a parameter is one that the standards allow: the name in lower case and a token as it is, other printable ASCII with tabs quoted, with backslashes before quotes and backslashes only, and any other value percent-encoded under the starred name, with only the attribute characters as they are |
| `MediaType.ParseMediaType` | src/mime/mediatype.go:140-238 | splitting, the loop over the parameters and the stitching compute the parsing function, whose meaning is the laws of MediaPlain, MediaContinuations and RoundTrip |
| `MediaType.Stitch` | src/mime/mediatype.go:199-235 | the loop without a bound of its own computes the stitching function, whose meaning is MediaContinuations.ContinuationsRead |
| `MediaContinuations.ContinuationsRead` | src/mime/mediatype.go:140-235 | a value in numbered parts, in any order, each a token, quoted or percent-encoded in any legal way, with a charset and language on part 0 only, comes back as what the parts say in the order of their numbers; the parts after a gap are dropped, and part 0 says nothing under an unknown charset |
| `MediaContinuations.SinglePartRead` | src/mime/mediatype.go:199-261 | a value percent-encoded in one starred parameter comes back if its charset is UTF-8 or US-ASCII, and is dropped otherwise |
| `MediaContinuations.LoopCollects` | src/mime/mediatype.go:160-197 | the loop over the parameters keeps every part under its own name |
| `MediaPlain.PlainRead` | src/mime/mediatype.go:140-197 | any parameters without stars and with names distinct in lower case, spaced, quoted and escaped in any legal way, come back with exactly their values |
| `MediaPlain.TwiceIsRefused` | src/mime/mediatype.go:188-191 | a name that comes twice, in whatever case, is the error for duplicates, whatever follows |
| `MediaPlain.JunkIsRefused` | src/mime/mediatype.go:164-174 | what is no parameter, be it without a mark, a name, an equals sign or a whole value, is the error that still tells the type |
| `MediaPlain.TypeDecides` | src/mime/mediatype.go:141-151 | white space around the type does not count, and the text is refused if what is left is no type |
| `MediaType.NextPart` | src/mime/mediatype.go:210-231 | numbered parts have names of their own, so there are fewer than names |
| `MediaType.LoopFeeds` | src/mime/mediatype.go:160-194 | parsing formatted parameters inserts exactly them, in order, or finds a repeated name |
| `MediaType.Decode2231RoundTrip` | src/mime/mediatype.go:240-261 | the charset prefix and percent-encoded value decode to the value |
| `MediaParams.ParamConsumed` | src/mime/mediatype.go:326-352 | a written parameter is read back, up to the next one |
| `MediaParams.ValueConsumed` | src/mime/mediatype.go:287-324 | a value written as a token, quoted or percent-encoded is consumed whole |
| `MediaParams.QuotedRoundTrip` | src/mime/mediatype.go:295-323 | a quoted value without line breaks comes back and the reader stops after its closing quote |
| `MediaParams.PercentRoundTrip` | src/mime/mediatype.go:354-391 | percent-decoding undoes percent-encoding, and the encoded text is a token without apostrophes |
| `MediaParams.PercentHexUnescape` | src/mime/mediatype.go:354-391 | two passes over the text compute the decoding and fill a buffer of exactly the counted size |
| `MediaParams.ConsumeValue` | src/mime/mediatype.go:287-324 | the scanning loop computes the value and the rest |
| `MediaWritten.DispositionMeans` | src/mime/mediatype.go:101-124 | the check accepts exactly one token, or two with a slash between them |
| `MediaWritten.WrittenConsumed` | src/mime/mediatype.go:324-352 | a parameter with any white space around its marks is consumed whole, with its name in lower case |
| `MediaWritten.ValueRead` | src/mime/mediatype.go:278-322 | a token, or a quoted string with more or fewer backslashes, gives its value and stops where it ends |
| `MediaWritten.CodedRead` | src/mime/mediatype.go:240-391 | a percent-encoded value in either case of digits, with or without charset and language, is consumed as it is and decodes to its value |
| `MediaParams.WritePercentEncoded` | src/mime/mediatype.go:62-79 | copying plain stretches whole gives the percent encoding |
| `MediaParams.WriteEscaped` | src/mime/mediatype.go:89-98 | copying stretches whole gives the escaped text |
| `Grammar.TokenLenIs` | src/mime/grammar.go:19-33 | a token is scanned to its end when something else follows |
| `Grammar.SpaceIsWhiteSpace` | src/mime/mediatype.go:326-348 | a character in UTF-8 is trimmed, whole, exactly if Unicode calls it white space |
| `MediaWritten.TokenChars` | src/mime/grammar.go:11-27 | the characters of a token are the letters, the digits and the seventeen other marks of RFC 2045 |
| `Sorting.ListsUnique` | src/mime/mediatype.go:37-41 | there is only one sorted list of the names of the parameters, whatever order the map is walked in |
| `Sorting.LeqMeans` | src/mime/mediatype.go:37-41 | the order of the names: a beginning comes first, and otherwise the first byte that differs decides |
| `Sorting.SortedKeys` | src/mime/mediatype.go:37-41 | the names of the parameters, each once, in sorted order |
| `Html.RoundTrip` | src/html/escape.go:166-214 | UnescapeString(EscapeString(s)) == s for every byte string |
| `HtmlRefs.EscapedIsSafe` | src/html/escape.go:166-180 | escaped text has none of the five characters, but for the ampersands of the five references |
| `HtmlRefs.OthersStay` | src/html/escape.go:174-180 | and only those five are changed |
| `Html.UnescapeString` | src/html/escape.go:187-214 | the in-place rewriting equals the left-to-right substitution on the immutable string, whose meaning is the laws of HtmlRefs |
| `Html.UnescapeEntity` | src/html/escape.go:56-164 | the replacement never goes past the bytes that have been read, which stay unread bytes untouched |
| `Html.EntityShrinks` | src/html/escape.go:56-164 | no replacement is longer than what it replaces |
| `Html.ReadEntity` | src/html/escape.go:56-164 | the scanning loops find the entity, its end and its replacement, whose meaning is the laws of HtmlRefs |
| `Html.ShorterName` | src/html/escape.go:150-159 | the longest known proper prefix of a name |
| `HtmlRefs.NumericReference` | src/html/escape.go:69-121 | a number in either base, with digits and x in either case, and any zeros in front, becomes the UTF-8 form of the character that it stands for modulo 2**32, and the rest goes on by itself |
| `HtmlRefs.OpenNumericReference` | src/html/escape.go:69-121 | the same without the semicolon, except for a single decimal digit |
| `HtmlRefs.NumberMeans` | src/html/escape.go:112-118 | a number stands for its Windows-1252 character, for itself, or for the replacement character if it is zero, a surrogate or too large |
| `HtmlRefs.SmallNumber` | src/html/escape.go:82-100 | numbers below 2**31 are read as they are |
| `HtmlRefs.LargeNumber` | src/html/escape.go:82-118 | a number beyond the last character gives the replacement character if and only if what is left of it modulo 2**32 is no character, or zero, or that one; 2**32 + 65 gives an A |
| `HtmlRefs.DigitsOf` | src/html/escape.go:82-100 | every number can be written in either base |
| `HtmlRefs.KnownName` | src/html/escape.go:126-145 | a known name becomes the UTF-8 form of its character |
| `HtmlRefs.KnownPair` | src/html/escape.go:146-148 | a name for two characters becomes both, in order |
| `HtmlRefs.KnownBeginning` | src/html/escape.go:149-159 | of an unknown name the longest known beginning that may go without a semicolon is replaced, and what follows it goes on by itself |
| `HtmlRefs.UnknownName` | src/html/escape.go:161-163 | a name that is not known and has no known beginning is left as it is |
| `HtmlRefs.LoneAmpersand` | src/html/escape.go:56-70 | an ampersand before anything that begins neither a number nor a name is left as it is |
| `HtmlRefs.RuneEncoded` | src/html/escape.go:120-120 | what is written for a number is the UTF-8 of RFC 3629 of that scalar value, or of the replacement character |
| `Solitaire.Solver.Solve` | doc/play/solitaire.go:79-110 | true if and only if some sequence of legal jumps leaves one peg, in the center if there is one; the board is unchanged; what is printed is a won game backwards |
| `Solitaire.Solver.Move` | doc/play/solitaire.go:54-63 | a jump is played exactly if it is legal, without leaving the bordered board |
| `Solitaire.Solver.Unmove` | doc/play/solitaire.go:66-70 | taking a jump back restores the board |
| `Solitaire.SolvableSteps` | doc/play/solitaire.go:79-110 | a board can be won if and only if it is won or some jump leads to a board that can be |
| `Solitaire.JumpRemovesOne` | doc/play/solitaire.go:54-63 | each jump removes one peg, so the search ends |
| `Solitaire.EnglishIsBordered` | doc/play/solitaire.go:17-29 | the board of the program has the illegal border |
| `Solitaire.EnglishIsInRows` | doc/play/solitaire.go:17-29 | each row of the board of the program ends in an illegal field |
| `Solitaire.LegalByRows` | doc/play/solitaire.go:54-63 | in terms of rows and columns, a move is legal exactly if a peg has a peg next to it, in one of the four directions, and a hole behind that |
| `Solitaire.EveryLegalJump` | doc/play/solitaire.go:85-85 | and the search tries every one of them |
| `Solitaire.FindCenter` | doc/play/solitaire.go:35-46 | the position of the single hole, or -1 |
| `Slices.Replace` | src/bytes/bytes.go:975-1009 | Replace is SplitN or Split and then Join with the replacement, and the empty pattern matches between characters |
| `Slices.JoinOfPieces` | src/bytes/bytes.go:327-352 | cutting and joining with something else is replacing |
| `Slices.JoinOfSplit` | src/bytes/bytes.go:500-520 | Join(Split(s, sep), sep) == s, for any number of pieces |
| `Slices.JoinOfKept` | src/bytes/bytes.go:363-386 | cutting after the separators loses nothing |
| `Slices.ExplodedFirst` | src/bytes/bytes.go:30-51 | with a limit, the first pieces are characters and only the last can be more |
| `Slices.InterleavedIs` | src/bytes/bytes.go:969-1010 | an empty string is replaced after each of the first characters, and the others follow as they are |
| `Text.IndexIsFirst` | src/strings/strings.go:1024-1100 | what is found is the first occurrence |
| `Slices.JoinOfExploded` | src/bytes/bytes.go:32-51 | cutting between characters loses nothing: the pieces put together are the string |
| `Slices.ExplodedAll` | src/bytes/bytes.go:32-51 | without a limit the pieces are exactly the characters |
| `Slices.SplitN` | src/bytes/bytes.go:361-361 | SplitN is genSplit keeping nothing, or explode for an empty separator |
| `Slices.SplitIsComplete` | src/bytes/bytes.go:327-352 | Split leaves no separator in any piece and cuts at every occurrence |
| `Slices.ReplaceLoop` | src/bytes/bytes.go:990-1009 | the loop fills its precomputed buffer exactly with the replaced string |
| `Slices.ReplacedLength` | src/bytes/bytes.go:989-990 | the size computed in advance is the size of the result |
| `Slices.GenSplit` | src/bytes/bytes.go:327-352 | the pieces with the kept bytes of their separators, or the characters for an empty separator, as many as asked |
| `Slices.Join` | src/bytes/bytes.go:500-520 | the loop fills its precomputed buffer with the pieces and separators |
| `Slices.Count` | src/bytes/bytes.go:55-72 | the number of occurrences that do not overlap |
| `Slices.Explode` | src/bytes/bytes.go:32-51 | the characters of the string, the rest in the last slot |
| `WasmRefs.Table.StoreValue` | misc/wasm/wasm_exec.js:175-223 | storeValue updates the tables and writes the reference as specified |
| `WasmRefs.Table.FinalizeRef` | misc/wasm/wasm_exec.js:324-333 | finalizeRef gives one reference back and frees the id with the last one |
| `WasmRefs.StoredOk` | misc/wasm/wasm_exec.js:175-223 | a stored value is loaded back, under the flag of its type, and what is held keeps its value |
| `WasmRefs.RefTellsType` | misc/wasm/wasm_exec.js:204-221 | the flag of a reference tells objects, strings, symbols and functions apart |
| `WasmRefs.IdsAreReused` | misc/wasm/wasm_exec.js:194-203 | the table grows only for a new value, and only when no freed id is left |
| `WasmRefs.FinalizedOk` | misc/wasm/wasm_exec.js:324-333 | a finalize keeps the tables valid and the values of all other held references |
| `WasmRefs.StartOk` | misc/wasm/wasm_exec.js:474-492 | the initial tables are valid |
| `WasmRefs.HeldLoads` | misc/wasm/wasm_exec.js:162-173 | over any run, a reference still held loads the value stored under it |
| `WasmRefs.HeldDiffer` | misc/wasm/wasm_exec.js:162-223 | distinct values that are held never share an id |
| `WasmRefs.EachIdOnce` | misc/wasm/wasm_exec.js:175-223 | every id but that of NaN is live or in the pool, not both, and in the pool at most once |
| `WasmRefs.CountsAreExact` | misc/wasm/wasm_exec.js:203-203 | the reference count of an id is exactly the number of references held |

## Left out

- Fma.FMA: the value of the hardware expression on the early return (a zero or non-finite factor, or a zero addend) is a parameter, and the sign of an exactly zero sum is not stated, being hardware behaviour and convention.
- Fma.RoundAndEncode: the exponent is an unbounded integer; in the code it is an int32 that the operand ranges keep small.
- Mod.LdexpRounds: int is taken to be 64 bits wide; NaN, infinities and zero are returned as they are and are not part of the statement.
- Special values: all NaNs that a function makes are one NaN, and the assembly versions of sqrt, ldexp, frexp and mod on some platforms are not modelled.
- Context: contexts with a Done of their own between a child and the nearest cancelCtx, that is the goroutine branch of propagateCancel, which is proved never to be entered without them; Value, Deadline and String; and wall-clock time, a timer being a step that may happen at any moment after it is armed.
- Pipe: the goroutines' own code between calls; a call is started by a step at any time with any data.
- Sieve: Generate's counter and the values are unbounded integers, and printing is the list of printed values.
- Linkcheck.WaitMeansComplete: fetching is a fixed function of the URL; the report of missing fragments and of problems, and the regular expressions that find links, are left out.
- Expvar: Init during other calls, the arithmetic on the Int and Float values, Get, String and the HTTP handler.
- Scanner.Scanner.Scan: the split function is ScanLines; ScanBytes, ScanRunes, ScanWords and final tokens are left out, and so is the guard against overflow when the buffer doubles, buffer sizes being unbounded.
- BufReader.Reader: slices are returned as values, so that the sharing of the buffer with the caller until the next call is not captured; Discard, ReadRune, ReadLine and WriteTo; and readers that report impossible counts, on which the code panics, or that use ErrBufferFull for themselves.
- EncodedWord.DecodeHeader: the name of a charset is lower-cased in ASCII only before a CharsetReader gets it; Decode of a single word is left out.
- EncodedWord.PlainComesBack: readers that make longer ASCII text of a content are not covered in the direction that a text with an encoded-word does not come back, because such a reader may give the very word back (EncodedWord.EchoComesBack).
- EncodedWord.NextWord: the search positions are counted from the front of the rest of the header instead of being kept as one cursor.
- MediaType.ParseMediaType: letters outside ASCII are not lower-cased, which for two of them, the Kelvin sign and the dotted capital I, would give ASCII letters in the type; the text of error values is left out.
- MediaType.Stitched: a bound on the number of continuation parts stands in for the missing bound of the loop, and is proved never to be reached.
- Html.UnescapeString: the entity table itself; byte-wise contract for strings.NewReplacer in Html.EscapeString.
- Solitaire: the glyphs printed; the boards printed are kept as a list.
- Slices.Count: Index is the first occurrence, without the strategies that src/bytes/bytes.go:1077-1165 chooses between; capacities of subslices are not modelled.
- WasmRefs.Table.StoreValue: numbers are opaque, ids are unbounded, and the DataView writes are one value of type Ref.
- The other parts of the tree: transcendental functions, reflection, logging, encodings, images, device scripts, user interfaces.
