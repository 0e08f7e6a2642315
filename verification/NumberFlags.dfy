/**
 The flags a document value keeps beside a number. The reader picks one of four integer
 constructors; which one it was must not show.
 */
module NumberFlags {
  import opened Json

  datatype Flags = Flags(isInt: bool, isUint: bool, isInt64: bool, isUint64: bool)

  function FromInt(i: int): Flags {
    Flags(true, i >= 0, true, i >= 0)
  }

  function FromUint(u: int): Flags {
    Flags(u < 0x8000_0000, true, true, true)
  }

  function FromInt64(i: int): Flags {
    if i >= 0 then Flags(i < 0x8000_0000, i < 0x1_0000_0000, true, true)
    else Flags(i >= -0x8000_0000, false, true, false)
  }

  function FromUint64(u: int): Flags {
    Flags(u < 0x8000_0000, u < 0x1_0000_0000, u < 0x8000_0000_0000_0000, true)
  }

  /** A number event whose number fits the kind it is sent as. */
  predicate InKind(e: Event) {
    match e
    case IntEvent(i) => -0x8000_0000 <= i < 0x8000_0000
    case UintEvent(u) => 0 <= u < 0x1_0000_0000
    case Int64Event(i) => -0x8000_0000_0000_0000 <= i < 0x8000_0000_0000_0000
    case Uint64Event(u) => 0 <= u <= MAX_UINT64
    case _ => false
  }

  function NumberOf(e: Event): int
    requires InKind(e)
  {
    match e
    case IntEvent(i) => i
    case UintEvent(u) => u
    case Int64Event(i) => i
    case Uint64Event(u) => u
  }

  function FlagsOf(e: Event): Flags
    requires InKind(e)
  {
    match e
    case IntEvent(i) => FromInt(i)
    case UintEvent(u) => FromUint(u)
    case Int64Event(i) => FromInt64(i)
    case Uint64Event(u) => FromUint64(u)
  }

  /** The kind `Accept` sends a number as: the first whose flag is set. */
  function Accepted(flags: Flags, n: int): Event {
    if flags.isInt then IntEvent(n)
    else if flags.isUint then UintEvent(n)
    else if flags.isInt64 then Int64Event(n)
    else Uint64Event(n)
  }

  /** Whichever constructor made the value, a flag says exactly whether the number fits that kind. */
  lemma FlagsSayWhatFits(e: Event)
    requires InKind(e)
    ensures FlagsOf(e).isInt <==> InKind(IntEvent(NumberOf(e)))
    ensures FlagsOf(e).isUint <==> InKind(UintEvent(NumberOf(e)))
    ensures FlagsOf(e).isInt64 <==> InKind(Int64Event(NumberOf(e)))
    ensures FlagsOf(e).isUint64 <==> InKind(Uint64Event(NumberOf(e)))
  {
    match e {
      case IntEvent(i) =>
      case UintEvent(u) =>
      case Int64Event(i) =>
      case Uint64Event(u) =>
    }
  }

  /** So equal numbers have equal flags, and what the document sends on is in kind and depends on the number alone. */
  lemma EqualNumbersLookAlike(e: Event, f: Event)
    requires InKind(e) && InKind(f) && NumberOf(e) == NumberOf(f)
    ensures FlagsOf(e) == FlagsOf(f)
    ensures InKind(Accepted(FlagsOf(e), NumberOf(e))) && NumberOf(Accepted(FlagsOf(e), NumberOf(e))) == NumberOf(e)
  {
    hide FlagsOf;
    FlagsSayWhatFits(e);
    FlagsSayWhatFits(f);
  }
}
