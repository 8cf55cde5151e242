/**
 This module fixes the Java primitive types the decoder works with as ranges of
 unbounded integers, and the runtime failures of the decoder as values.
 */
module JavaTypes {

  /** Java `char`: an unsigned 16-bit value. */
  type Char = x: int | 0 <= x < 0x1_0000

  /** Java `short`: a signed 16-bit value (one PCM sample). */
  type Short = x: int | -0x8000 <= x < 0x8000

  /** Java `byte`: a signed 8-bit value. */
  type Byte = x: int | -0x80 <= x < 0x80

  /** Java `int`: a signed 32-bit value. */
  type Int = x: int | -0x8000_0000 <= x < 0x8000_0000

  /** The narrowing cast `(char) v` of an `int`: keeps the low 16 bits, so the
      result is the one `char` congruent to `v` modulo 2^16. */
  function ToChar(v: Int): (c: Char)
    ensures (c - v) % 0x1_0000 == 0
  {
    v % 0x1_0000
  }

  /** A fresh Java array `new T[n]`: `n` copies of the type's default value. */
  function NewArray<T>(n: nat, default: T): (a: seq<T>)
    ensures |a| == n
    ensures forall i :: 0 <= i < n ==> a[i] == default
  {
    seq(n, _ => default)
  }

  /** What can go wrong in one decoder call; every one surfaces as an exception in Java. */
  datatype Fault =
    | CodecFailure       // the codec raised an OpusException, rethrown as a RuntimeException
    | NullHandle         // the codec handle was released by close: NullPointerException
    | NegativeArraySize  // `new short[result]` with a negative codec result
    | IndexOutOfBounds   // `System.arraycopy` reaching outside one of its arrays

  /** A value that may be absent, as a Java reference that may be `null`. */
  datatype Option<+T> = None | Some(value: T)

  /** A value or the fault that replaced it. */
  datatype Result<+T> = Ok(value: T) | Err(fault: Fault)
}
