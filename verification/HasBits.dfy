/** A member of a generated class kept together with its bit of `_has_bits_[0]`. */
module HasBits {
  import opened Prelude

  datatype Member<T(==)> = Member(has: bool, value: T) {

    /** What `has_...()` and the accessor show together. */
    function Shown(): Option<T>
    {
      if has then Some(value) else None
    }

    /** The default value, the has bit left alone. */
    function Reset(default: T): Member<T>
    {
      Member(has, default)
    }

    /** The has bit cleared, the value left alone. */
    function Drop(): Member<T>
    {
      Member(false, value)
    }

    /** A clear has bit goes with the default value. */
    predicate Valid(default: T)
    {
      !has ==> value == default
    }
  }

  /** `set_...(v)`: the has bit and the value. */
  function Set<T(==)>(v: T): Member<T>
  {
    Member(true, v)
  }

  /** `clear_...()`: the default value and the has bit. */
  function Unset<T(==)>(default: T): Member<T>
  {
    Member(false, default)
  }

  /** `if (from.has_...()) set_...(from....())`. */
  function Merged<T(==)>(a: Member<T>, b: Member<T>): Member<T>
  {
    if b.has then Set(b.value) else a
  }
}
