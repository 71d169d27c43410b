/** Vocabulary shared by all modules. */
module Common {

  datatype Option<+T> = None | Some(value: T)

  /** Panic is a run-time panic of the source; Hang is a call that does not return. */
  datatype Outcome<+T> = Ok(value: T) | Err | Panic | Hang
  {
    predicate IsFailure() { !Ok? }

    function PropagateFailure<U>(): (r: Outcome<U>)
      requires !Ok?
    {
      if Err? then Err else if Panic? then Panic else Hang
    }

    function Extract(): (r: T)
      requires Ok?
    {
      value
    }
  }

  /** The largest Go int. */
  const INT_MAX: nat := 0x7FFF_FFFF_FFFF_FFFF

  /** Go's int(x) of a 64-bit result: wraps around. */
  function GoInt(x: int): (y: int)
    ensures 0 <= x <= 0x7FFF_FFFF_FFFF_FFFF ==> y == x
  {
    var low := x % 0x1_0000_0000_0000_0000;
    if low > 0x7FFF_FFFF_FFFF_FFFF then low - 0x1_0000_0000_0000_0000 else low
  }

  /** Adding before or after the wrap-around is the same. */
  lemma GoIntAdds(x: int, y: int)
    ensures GoInt(x + GoInt(y)) == GoInt(x + y)
  {
  }
}
