/** The I/O vocabulary the session code uses: bytes, fixed-width integers,
    `io::Error` and `io::Result<()>`. */
module Io {
  newtype byte = x: int | 0 <= x < 0x100
  newtype u32 = x: int | 0 <= x < 0x1_0000_0000
  newtype u64 = x: int | 0 <= x < 0x1_0000_0000_0000_0000

  datatype Option<T> = None | Some(value: T)

  /** The `io::ErrorKind`s that appear in the session code. */
  datatype ErrorKind = InvalidData | Other | UnexpectedEof

  datatype IoError = IoError(kind: ErrorKind, message: string)

  /** `io::Result<()>`. */
  datatype Result = Ok | Err(error: IoError)

  /** What the `unexpected!` macro returns. */
  const ProtocolError := IoError(InvalidData, "protocol error")
}

/** Messages between the host and the core device (`session_proto`). */
module HostProto {
  import opened Io

  datatype Request =
    | Ident
    | Log
    | LogClear
    | FlashRead(key: string)
    | FlashWrite(key: string, value: seq<byte>)
    | FlashRemove(key: string)
    | FlashErase
    | SwitchClock(clock: nat)
    | LoadLibrary(library: seq<byte>)
    | RunKernel
      /** Any other request kind of the protocol; the session does not handle it. */
    | OtherRequest(name: string)

  datatype Reply =
    | IdentReply(ident: string)
    | LogReply(log: string)
    | FlashReadReply(value: seq<byte>)
    | FlashOk
    | FlashError
    | ClockSwitchCompleted
    | ClockSwitchFailed
    | LoadCompleted
    | LoadFailed
    | KernelStartupFailed
    | WatchdogExpired
    | ClockFailure
}

/** Messages between the communication CPU and the kernel CPU (`kernel_proto`). */
module KernProto {
  import opened Io

  datatype Message =
    | LoadRequest(library: seq<byte>)
    | LoadReply(error: Option<string>)
    | KernelLog(text: string)
    | NowInitRequest
    | NowInitReply(now: u64)
    | NowSave(now: u64)
    | WatchdogSetRequest(ms: u64)
    | WatchdogSetReply(id: nat)
    | WatchdogClear(id: nat)
    | CacheGetRequest(key: string)
    | CacheGetReply(value: seq<u32>)
    | CachePutRequest(key: string, value: seq<u32>)
    | CachePutReply(succeeded: bool)
    | RpcRecvRequest
      /** Any other message kind of the protocol. */
    | OtherMessage(name: string)
}
