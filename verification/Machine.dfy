/** Fixed-width machine integers and the result types shared by every module. */
module Machine {
  const TWO_31: int := 0x8000_0000
  const TWO_32: int := 0x1_0000_0000
  const TWO_64: int := 0x1_0000_0000_0000_0000
  const TWO_128: int := 0x1_0000_0000_0000_0000_0000_0000_0000_0000
  const TWO_256: int := 0x1_0000_0000_0000_0000_0000_0000_0000_0000_0000_0000_0000_0000_0000_0000_0000_0000

  type byte = x: int | 0 <= x < 256
  type u32 = x: int | 0 <= x < TWO_32
  type u64 = x: int | 0 <= x < TWO_64
  type u128 = x: int | 0 <= x < TWO_128

  datatype Option<+T> = None | Some(value: T)

  /** A JavaScript function either returns or throws; `:-` propagates the exception. */
  datatype Js<+T> = Returned(value: T) | Throws(message: string)
  {
    predicate IsFailure()
    {
      Throws?
    }

    function PropagateFailure<U>(): Js<U>
      requires Throws?
    {
      Throws(message)
    }

    function Extract(): T
      requires Returned?
    {
      value
    }
  }
}
