/** Fixed-width C integers, written out over the unbounded ones. */
module MachineInts {
  const TWO32: int := 0x1_0000_0000
  const TWO64: int := 0x1_0000_0000_0000_0000

  type byte = x: int | 0 <= x < 0x100
  type uint16 = x: int | 0 <= x < 0x1_0000
  type uint32 = x: int | 0 <= x < 0x1_0000_0000
  type uint64 = x: int | 0 <= x < 0x1_0000_0000_0000_0000

  /** The value a 32-bit unsigned variable holds after `x` is stored in it. */
  function Wrap32(x: int): (r: uint32)
    ensures 0 <= x < TWO32 ==> r == x
  {
    x % TWO32
  }

  /** The value a 64-bit unsigned variable holds after `x` is stored in it. */
  function Wrap64(x: int): (r: uint64)
    ensures 0 <= x < TWO64 ==> r == x
  {
    x % TWO64
  }

  lemma WrapPeriodic(x: int, q: int)
    ensures Wrap64(x - q * TWO64) == Wrap64(x)
  {
    var k := x / TWO64;
    assert x == k * TWO64 + Wrap64(x);
    assert x - q * TWO64 == (k - q) * TWO64 + Wrap64(x);
  }

  lemma WrapAdds(x: int, y: int)
    ensures Wrap64(Wrap64(x) + y) == Wrap64(x + y)
  {
    var q := x / TWO64;
    assert Wrap64(x) + y == x + y - q * TWO64;
    WrapPeriodic(x + y, q);
  }

  lemma WrapSubtracts(x: int, y: int)
    ensures Wrap64(Wrap64(x) - Wrap64(y)) == Wrap64(x - y)
  {
    var q := y / TWO64;
    WrapPeriodic(x - y, -q);
    WrapAdds(x, 0 - Wrap64(y));
    assert x - Wrap64(y) == x - y - (-q) * TWO64;
  }
}

/** Optional values, error codes and fallible results. */
module Outcomes {
  datatype Option<+T> = None | Some(value: T)

  /** Every error return is one of these; `Generic` stands for codes passed through from a lower layer. */
  datatype Error =
    | InvalidParam
    | InvalidParamAlignment
    | InvalidParamSize
    | InvalidMsgType
    | OutOfBounds
    | UnmappedLba
    | AlreadyExists
    | NotFound
    | ResourceUnavailable
    | ReplicationUnavailable
    | OutOfMemory
    | TooManyExtents
    | StorageGeneric
    | ProtocolGeneric
    | Internal
    | Io
    | Generic(code: int)

  datatype Result<+T> = Ok(value: T) | Err(error: Error) {
    predicate IsFailure() {
      Err?
    }

    function PropagateFailure<U>(): Result<U>
      requires Err?
    {
      Err(error)
    }

    function Extract(): T
      requires Ok?
    {
      value
    }
  }

  /** How an operation ended. */
  datatype Status = StatusOk | StatusErr(error: Error)

  /** `xsan_error_from_errno`, with Linux error numbers: only zero means success. */
  function FromErrno(e: int): (s: Status)
    ensures s == StatusOk <==> e == 0
  {
    match e
    case 0 => StatusOk
    case 22 => StatusErr(InvalidParam)
    case 12 => StatusErr(OutOfMemory)
    case 2 => StatusErr(NotFound)
    case 17 => StatusErr(AlreadyExists)
    case 5 => StatusErr(Io)
    case 13 => StatusErr(Generic(-9))
    case 1 => StatusErr(Generic(-9))
    case 16 => StatusErr(Generic(-3))
    case 110 => StatusErr(Generic(-6))
    case 4 => StatusErr(Generic(-10))
    case 28 => StatusErr(Generic(-48))
    case 104 => StatusErr(Generic(-22))
    case 103 => StatusErr(Generic(-22))
    case 111 => StatusErr(Generic(-23))
    case 98 => StatusErr(Generic(-24))
    case 100 => StatusErr(Generic(-25))
    case 101 => StatusErr(Generic(-26))
    case 113 => StatusErr(Generic(-26))
    case _ => StatusErr(Generic(-11))
  }
}

/** Raw memory. */
module Buffers {
  /** `memcpy` of a whole value into a buffer at an offset. */
  method CopyInto<T>(buffer: array<T>, at: nat, src: seq<T>)
    requires at + |src| <= buffer.Length
    modifies buffer
    ensures buffer[..at + |src|] == old(buffer[..at]) + src
    ensures forall i :: at + |src| <= i < buffer.Length ==> buffer[i] == old(buffer[i])
  {
    forall i | 0 <= i < |src| {
      buffer[at + i] := src[i];
    }
  }
}
