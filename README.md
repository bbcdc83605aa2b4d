# ARTIQ core device session and the py2llvm test references, in Dafny

This project models two pieces of the ARTIQ repository.

The first is the session layer of the core device's communication CPU,
`artiq/runtime.rs/src/session.rs`. A host connects and sends the 14-byte magic
`"ARTIQ coredev\n"`. A per-connection `Session` then tracks the kernel state
(Absent, Loaded, Running or RpcWait) while the code polls two sources in turn.
Host requests are handled by `comm_handle`: identification, the log, flash
configuration, RTIO clock switching, loading a kernel library and running it.
Messages from the kernel CPU are handled by `kern_handle`: kernel log lines,
`now` init and save, watchdogs, and the kernel cache. A persistent `Congress`
holds the RTIO timeline position `now`. It outlives every session, so a value
saved by one kernel is handed to the next. A session ends on the first error
(a failed read, a protocol error, running out of watchdogs, an expired watchdog
or an RTIO clock failure).
Dropping it stops the kernel.

There are two layers. Module `SessionSpec` (`session_spec.dfy`) writes the
state machine as pure functions (`CommStep`, `KernStep`, `TickStep`,
`RunTicks`, `HandleSpec`, `Serve`) and proves its properties. Module `Session`
(`session.dfy`) is the imperative form of the source: the classes `Congress`
and `Session` are updated in place by `CommHandle`, `KernHandle`, `Poll`,
`Handle` and `Handler`. Each method's postcondition ties the new object state
and the effects it produced to the matching function. The server's collaborators
are not modelled: the TCP stream, the mailbox, flash, the logger, the watchdog
set, the cache and the RTIO clock generator. What they answer is an input
(`CommEnv`, `KernEnv`, `Tick`). What the session does to them is an output, an
ordered list of `Effect`s. Module `Io`, with `HostProto` and `KernProto`
(`proto.dfy`), gives the vocabulary: bytes, `u32`/`u64`, `io::Error` and the
two message sets.

The second is the pure reference code of `test/py2llvm.py`, which checks the
compiler's output against CPython: `is_prime`, `simplify_encode` and
`arith_encode`. Python's `Fraction` is modelled in module `Rational`
(`rational.dfy`) as a numerator and a positive denominator in lowest terms.
`Normalize` reduces by the gcd. The four operators are built on it, and the
canonical form is proved unique. A zero denominator, or dividing by the fraction
zero, gives `ZeroDivisionError`, as `Fraction` does. Module `Py2llvmReference`
(`py2llvm_reference.dfy`) holds the three functions:
- `IsPrime` is a method with the source's `while` loop.
- `SimplifyEncode` and `ArithEncode` are functions.

It also holds lemmas about what the test cases at lines 112-142 exercise.

## Model

| member | source | states |
|---|---|---|
| SessionSpec.CommStep | artiq/runtime.rs/src/session.rs:126-222 | a running kernel refuses clock switches and loads, and the kernel CPU is not touched; otherwise a clock switch is attempted and answered ClockSwitchCompleted or ClockSwitchFailed as the switch went; log and flash requests are served in every state with the state unchanged and a reply to the host last, and a flash write stores the value and answers FlashOk or FlashError; a load starts the kernel CPU and sends the library, then moves to Loaded on `LoadReply(None)`, replies LoadFailed on a load error, and fails with the protocol error on any other reply; RunKernel succeeds only from Loaded; these are the only state changes; the only errors are the protocol error for an unknown request or a wrong reply, and they leave the state unchanged |
| SessionSpec.KernStep | artiq/runtime.rs/src/session.rs:224-282 | LoadReply in Loaded and RpcRecvRequest in RpcWait are dropped; any other message outside Running is a protocol error; in Running, a message without a handler is a protocol error, NowInitRequest replies with the current `now`, NowSave sets it, and WatchdogSetRequest fails with "out of watchdogs" exactly when no id is available and otherwise arms the watchdog and replies with its id, KernelLog and WatchdogClear are acknowledged, CacheGetRequest replies with the cached value and CachePutRequest stores the value exactly when the put succeeds and replies with that outcome; a message is refused exactly when it is neither dropped while standing by nor handled while Running, or no watchdog is left; only a dispatched NowSave changes `now`; a failure produces no effects |
| SessionSpec.CheckMagic | artiq/runtime.rs/src/session.rs:79-89 | succeeds exactly when the first 14 bytes are the magic; fewer than 14 bytes is an UnexpectedEof error, and 14 or more that differ are "unrecognized magic" (InvalidData) |
| SessionSpec.MagicIsBanner | artiq/runtime.rs/src/session.rs:80 | the magic is the 14 ASCII bytes of "ARTIQ coredev\n" |
| SessionSpec.TickStep | artiq/runtime.rs/src/session.rs:291-312 | within one polling pass, the state changes only through a received host request and `now` only through a kernel NowSave; a running kernel whose watchdog expired or whose RTIO clock failed ends the session; WatchdogExpired and ClockFailure are written only while a kernel runs; the pass ends the session exactly when the host request or the kernel message fails, or the kernel is Running with an expired watchdog or a failed clock; an expired watchdog writes WatchdogExpired and fails with "watchdog expired", otherwise a failed clock writes ClockFailure and fails with "RTIO clock failure" |
| SessionSpec.HandleSpec | artiq/runtime.rs/src/session.rs:284-290 | a bad or short magic ends the connection before a session exists: no effects, `now` unchanged, and the magic error is returned |
| SessionSpec.IsRunningExactly | artiq/runtime.rs/src/session.rs:65-70 | `running()` holds exactly in Running and RpcWait, and fails exactly in Absent and Loaded |
| SessionSpec.NeverEntersRpcWait | artiq/runtime.rs/src/session.rs:185-218 | no run of polling passes from a state other than RpcWait ever reaches RpcWait (no transition of this code enters it) |
| SessionSpec.RunningIsPermanent | artiq/runtime.rs/src/session.rs:209-218 | once Running, a session stays Running for any sequence of passes |
| SessionSpec.SessionStates | artiq/runtime.rs/src/session.rs:58-63 | a session opened by `handle` with no passes yet is Absent, and every state a connection ends in is Absent, Loaded or Running, never RpcWait |
| SessionSpec.SessionNowProvenance | artiq/runtime.rs/src/session.rs:248-253 | after a session, `now` either keeps its old value or equals the value of a NowSave the kernel sent in it |
| SessionSpec.NowProvenance | artiq/runtime.rs/src/session.rs:316-328 | across any number of connections served by one Congress, `now` keeps its initial value or equals some NowSave from one of them |
| SessionSpec.NowSurvivesSessions | artiq/runtime.rs/src/session.rs:316-328 | connections that send no NowSave leave `now` as it was: opening a session does not reset it |
| SessionSpec.NowSaveThenInit | artiq/runtime.rs/src/session.rs:248-253 | in a running session, NowSave(n) followed by NowInitRequest answers NowInitReply(n) |
| SessionSpec.NowCarriesAcrossSessions | artiq/runtime.rs/src/session.rs:316-328 | a kernel that saves n in one connection, which the host then closes, hands n to the next connection's kernel when it asks for `now` |
| Session.Congress.constructor | artiq/runtime.rs/src/session.rs:33-39 | a new Congress starts with `now` = 0 |
| Session.Session.constructor | artiq/runtime.rs/src/session.rs:57-63 | a new Session starts Absent |
| Session.CommHandle | artiq/runtime.rs/src/session.rs:126-222 | updates the session's kernel state in place and returns the effects and result that `CommStep` (or a failing read) specifies |
| Session.KernHandle | artiq/runtime.rs/src/session.rs:224-282 | updates `Congress.now` in place and returns the effects and result that `KernStep` specifies |
| Session.Poll | artiq/runtime.rs/src/session.rs:291-312 | one pass of the loop changes the session and the Congress as `TickStep` specifies |
| Session.Handle | artiq/runtime.rs/src/session.rs:284-314 | checks the magic, then polls until the first error; it appends the kernel stop caused by dropping the session (session.rs:73-77); the final `now`, effects and error are those of `HandleSpec` |
| Session.Handler | artiq/runtime.rs/src/session.rs:316-339 | serves connections in turn with one Congress that starts at 0; its effects and final `now` are those of `Serve` |
| Rational.NormalizeCorrect | test/py2llvm.py:86 | `Fraction(a, b)` for b != 0 is in lowest terms with a positive denominator, has the value a/b, and its denominator is at most abs(b) |
| Rational.CanonicalForm | test/py2llvm.py:86-87 | two lowest-terms fractions with positive denominators and the same value are equal, so the encoding of a value is unique |
| Rational.SubCorrect | test/py2llvm.py:92 | subtracting the reduced fractions gives the reduced form of (ad - cb)/(bd) |
| Rational.AddCorrect | test/py2llvm.py:94 | adding the reduced fractions gives the reduced form of (ad + cb)/(bd) |
| Rational.MulCorrect | test/py2llvm.py:96 | multiplying gives the reduced form of (ac)/(bd) |
| Rational.DivCorrect | test/py2llvm.py:98 | dividing raises ZeroDivisionError exactly when c = 0, and otherwise gives the reduced form of (ad)/(bc) |
| Py2llvmReference.IsPrime | test/py2llvm.py:76-82 | the trial-division loop returns true exactly when no d with 2 <= d and d*d <= x divides x, that is, exactly when x < 2 or x is prime |
| Py2llvmReference.SimplifyEncode | test/py2llvm.py:85-87 | raises ZeroDivisionError exactly when b = 0 |
| Py2llvmReference.SimplifyEncodeByGcd | test/py2llvm.py:85-87 | for positive a, b the result is (a/g)*1000 + b/g with g = gcd(a, b), and a/g, b/g are coprime |
| Py2llvmReference.SimplifyEncodeDecodes | test/py2llvm.py:85-87 | when abs(b) < 1000, the integer decodes back to `Fraction(a, b)`, which is in lowest terms with the value a/b |
| Py2llvmReference.SimplifyEncodeTestRange | test/py2llvm.py:117-121 | on test_frac_simplify's range [5, 20) every result is defined, its denominator is at most 19, and it decodes back |
| Py2llvmReference.ArithFraction | test/py2llvm.py:90-98 | before encoding: ZeroDivisionError exactly when b = 0, d = 0, or op is not 1, 2 or 3 and c = 0; every result is in lowest terms |
| Py2llvmReference.ArithEncode | test/py2llvm.py:90-99 | `arith_encode` raises ZeroDivisionError exactly in those cases |
| Py2llvmReference.ArithFractionDispatch | test/py2llvm.py:90-98 | op 1 subtracts, op 2 adds, op 3 multiplies and every other op divides, each as the reduced form of the unreduced formula |
| Py2llvmReference.DecodeEncode | test/py2llvm.py:99 | `numerator*1000 + denominator` is decoded back for every denominator in (0, 1000) |
| Py2llvmReference.EncodeInjective | test/py2llvm.py:128-130 | two fractions with denominators in (0, 1000) and the same encoding are the same fraction, so comparing encodings compares fractions |
| Py2llvmReference.TestOpsMeaning | test/py2llvm.py:132-142 | on the tests' range, test_frac_add (op 0) divides, test_frac_sub (op 1) subtracts, test_frac_mul (op 2) adds and test_frac_div (op 3) multiplies |
| Py2llvmReference.TestFracAddDivides | test/py2llvm.py:132-133 | the named case: `arith_encode(0, 5, 5, 5, 5)` is 1001 (a division), while the sum 5/5 + 5/5 would encode to 2001 |
| Py2llvmReference.ArithTestRange | test/py2llvm.py:123-130 | on `_test_frac_arith`'s range [5, 10) every op gives a defined fraction with a denominator from 1 to 81, and its encoding decodes back to it |

## Left out

- The TCP stream, the mailbox to the kernel CPU, flash (`config`), the logger, `kernel::start`/`stop` and `rtio_crg` are not modelled as devices. They become inputs (`CommEnv`, `KernEnv`, `Tick`) and output effects.
- Writes to the host and sends to the kernel CPU are assumed to succeed. A failing `host_write` or `kern_send` that would end the session early is not modelled; a failing host read is.
- The watchdog set (`clock::WatchdogSet`) and the kernel cache (`Cache`) are opaque. Their answers (`set_ms`'s id, `get`'s value, `put`'s success, `expired()`) are inputs, and their internal bookkeeping is not modelled.
- The `mem::transmute` of the cache value (session.rs:270) is a lifetime cast with no effect on the value; it is not modelled.
- The endless loops of `handle` and `handler` are modelled over a finite list of ticks and of connections. A connection whose ticks run out is still open, and `Serve` does not go past it.
- `waiter.relinquish()` and cooperative scheduling are not modelled.
- Log output (`trace!`, `info!`, `error!`, including the handler's "connection closed" and "session aborted" messages) is not modelled, except that a kernel `Log` message becomes a `LogKernelMessage` effect.
- Binding and accepting on port 1381 (session.rs:320-326) is not modelled; each accepted connection is one `Connection` value.
- `Request::read_from` and `Reply::write_to`, the wire formats of `session_proto` and `kernel_proto`, are not part of this model; requests and replies are datatypes.
- `artiq/firmware/runtime/main.rs` and `artiq/firmware/libboard_artiq/lib.rs` are context and are not modelled.
- `FunctionTypesCase` (py2llvm.py:30-51) runs the type inference `infer_function_types` on the sample function `test_types` (py2llvm.py:14-27); `CompiledFunction` (py2llvm.py:54-73) compiles a function with `Module.compile_function` and runs it on the LLVM execution engine (`llvm.ee`). The type inference, the compiler and the execution engine are not part of this model. Only the CPython reference side of each test is modelled, on unbounded integers, not the compiled side's fixed-width integers.
- Receives that fail are not modelled: the `kern_recv` of the load reply (session.rs:194) and the `wait_and_receive` of `kern_handle` (session.rs:227) always deliver a message (`CommEnv.loadReply`, `KernEvent`). Likewise `read_exact` in `check_magic` (session.rs:83) either delivers bytes or hits the end of the stream; other read errors there are not modelled.
- SessionSpec.TickStep: the error value of a failed host read or kernel message is stated by `HostPoll` and `KernStep`, not repeated in this contract; its own contract fixes the watchdog and clock errors.
