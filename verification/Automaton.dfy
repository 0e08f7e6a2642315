/**
 The table-driven parser: a pushdown automaton whose frames hold the state to resume
 and the number of members or elements read so far.
 */
module Automaton {
  import opened Bytes
  import opened Json
  import opened Scalars
  import opened RecursiveDescent

  datatype State =
    | Finish
    | Error
    | Start
    | ObjectInitial
    | MemberKey
    | MemberValue
    | ObjectFinish
    | ArrayInitial
    | Element
    | ArrayFinish
    | SingleValue
    | ElementDelimiter
    | MemberDelimiter
    | KeyValueDelimiter

  datatype Token =
    | LeftBracket
    | RightBracket
    | LeftCurlyBracket
    | RightCurlyBracket
    | CommaToken
    | ColonToken
    | StringToken
    | FalseToken
    | TrueToken
    | NullToken
    | NumberToken

  function Tokenize(c: byte): Token {
    match c
    case 0x22 => StringToken
    case 0x2C => CommaToken
    case 0x3A => ColonToken
    case 0x5B => LeftBracket
    case 0x5D => RightBracket
    case 0x66 => FalseToken
    case 0x6E => NullToken
    case 0x74 => TrueToken
    case 0x7B => LeftCurlyBracket
    case 0x7D => RightCurlyBracket
    case _ => NumberToken
  }

  predicate IsScalarToken(t: Token) {
    t.StringToken? || t.FalseToken? || t.TrueToken? || t.NullToken? || t.NumberToken?
  }

  /** The row of the table for a state that expects a value. */
  function ValueRow(t: Token, scalar: State, close: State): State {
    match t
    case LeftBracket => ArrayInitial
    case LeftCurlyBracket => ObjectInitial
    case RightBracket => close
    case RightCurlyBracket => Error
    case CommaToken => Error
    case ColonToken => Error
    case _ => scalar
  }

  /** Current state and lookahead token to candidate state. */
  function Predict(state: State, t: Token): State {
    match state
    case Start => ValueRow(t, SingleValue, Error)
    case ObjectInitial => if t.RightCurlyBracket? then ObjectFinish else if t.StringToken? then MemberKey else Error
    case MemberKey => if t.ColonToken? then KeyValueDelimiter else Error
    case MemberValue => if t.RightCurlyBracket? then ObjectFinish else if t.CommaToken? then MemberDelimiter else Error
    case ArrayInitial => ValueRow(t, Element, ArrayFinish)
    case Element => if t.RightBracket? then ArrayFinish else if t.CommaToken? then ElementDelimiter else Error
    case ElementDelimiter => ValueRow(t, Element, ArrayFinish)
    case MemberDelimiter => if t.RightCurlyBracket? then ObjectFinish else if t.StringToken? then MemberKey else Error
    case KeyValueDelimiter => ValueRow(t, MemberValue, Error)
    case _ => Error
  }

  /** Two consecutive cells of the source's stack: the state to resume and the count. */
  datatype Frame = Frame(resume: State, count: nat)

  datatype Config = Config(state: State, stack: seq<Frame>, pos: nat, events: seq<Event>)

  datatype Step =
    | Move(config: Config)
    | Halt(events: seq<Event>, code: ErrorCode, offset: nat)

  /** States in which the automaton is inside some array or object. */
  predicate Nested(state: State) {
    state.ObjectInitial? || state.MemberKey? || state.MemberValue? || state.ArrayInitial?
    || state.Element? || state.ElementDelimiter? || state.MemberDelimiter? || state.KeyValueDelimiter?
  }

  /** The stack is empty outside all containers; its bottom frame, and only it, resumes the start. */
  predicate Disciplined(state: State, stack: seq<Frame>) {
    && (state.Finish? || state.Start? || Nested(state))
    && (Nested(state) <==> stack != [])
    && (forall i :: 0 <= i < |stack| ==>
          if i == 0 then stack[i].resume.Start? else stack[i].resume.MemberValue? || stack[i].resume.Element?)
  }

  predicate WellFormed(c: Config) {
    Disciplined(c.state, c.stack)
  }

  /** `HandleError`: the error code for a state in which no token fits. */
  function ErrorOf(state: State): ErrorCode {
    match state
    case Start => DocumentEmpty
    case Finish => DocumentRootNotSingular
    case ObjectInitial => ObjectMissName
    case MemberDelimiter => ObjectMissName
    case MemberKey => ObjectMissColon
    case MemberValue => ObjectMissCommaOrCurlyBracket
    case KeyValueDelimiter => ValueInvalid
    case ArrayInitial => ValueInvalid
    case ElementDelimiter => ValueInvalid
    case _ => ArrayMissCommaOrSquareBracket
  }

  /** The state pushed when a container opens in state `src`. */
  function ResumeAfter(src: State): State {
    if src.ArrayInitial? || src.ElementDelimiter? then Element
    else if src.KeyValueDelimiter? then MemberValue
    else src
  }

  /** One scalar token consumed in state `src`, ending in state `dst`. */
  function TakeScalar(s: bytes, c: Config, dst: State): Step
    requires c.pos < |s|
  {
    match ParseScalar(s, c.pos)
    case Fail(code, offset) => Halt(c.events, code, offset)
    case Done(e, next) => Move(c.(state := dst, pos := next, events := c.events + [e]))
  }

  /** A closing bracket: pops the frame and resumes the enclosing container. */
  function Close(c: Config, e: Event): Step
    requires c.stack != []
  {
    var n := c.stack[|c.stack| - 1].resume;
    Move(Config(if n.Start? then Finish else n, c.stack[..|c.stack| - 1], c.pos + 1, c.events + [e]))
  }

  /** The count reported at a closing bracket: the last item is counted when no comma followed it. */
  function ClosingCount(c: Config): nat
    requires c.stack != []
  {
    var n := c.stack[|c.stack| - 1].count;
    if c.state.MemberValue? || c.state.Element? then n + 1 else n
  }

  /** One round of the loop: `Predict`, `Transit` and, on failure, `HandleError`. */
  function Transit(s: bytes, c: Config, fl: Flags): Step
    requires WellFormed(c) && c.pos < |s|
  {
    var dst := Predict(c.state, Tokenize(s[c.pos]));
    match dst
    case Error => Halt(c.events, ErrorOf(c.state), c.pos)
    case ObjectInitial =>
      Move(Config(dst, c.stack + [Frame(ResumeAfter(c.state), 0)], c.pos + 1, c.events + [StartObjectEvent]))
    case ArrayInitial =>
      Move(Config(dst, c.stack + [Frame(ResumeAfter(c.state), 0)], c.pos + 1, c.events + [StartArrayEvent]))
    case MemberKey =>
      (match ParseString(s, c.pos)
       case Fail(code, offset) => Halt(c.events, code, offset)
       case Done(name, next) => Move(c.(state := dst, pos := next, events := c.events + [KeyEvent(name)])))
    case KeyValueDelimiter => Move(c.(state := dst, pos := c.pos + 1))
    case MemberValue => TakeScalar(s, c, dst)
    case Element => TakeScalar(s, c, dst)
    case MemberDelimiter => Move(CountOne(c).(state := dst, pos := c.pos + 1))
    case ElementDelimiter => Move(CountOne(c).(state := dst, pos := c.pos + 1))
    case ObjectFinish =>
      if !fl.trailingCommas && c.state.MemberDelimiter? then Halt(c.events, ObjectMissName, c.pos)
      else Close(c, EndObjectEvent(ClosingCount(c)))
    case ArrayFinish =>
      if !fl.trailingCommas && c.state.ElementDelimiter? then Halt(c.events, ValueInvalid, c.pos)
      else Close(c, EndArrayEvent(ClosingCount(c)))
    case _ => TakeScalar(s, c, Finish)
  }

  /** `c` with one more item counted in its top frame. */
  function CountOne(c: Config): Config
    requires c.stack != []
  {
    var top := c.stack[|c.stack| - 1];
    c.(stack := c.stack[..|c.stack| - 1] + [top.(count := top.count + 1)])
  }

  /** Every move consumes input and keeps the stack discipline. */
  lemma TransitKeepsWellFormed(s: bytes, c: Config, fl: Flags)
    requires WellFormed(c) && c.pos < |s|
    ensures var t := Transit(s, c, fl);
            t.Move? ==> WellFormed(t.config) && c.pos < t.config.pos <= |s| && c.events <= t.config.events
  {
    hide ParseString, ParseScalar;
  }

  lemma TransitFails(s: bytes, c: Config, fl: Flags)
    requires WellFormed(c) && c.pos < |s| && Predict(c.state, Tokenize(s[c.pos])).Error?
    ensures Transit(s, c, fl) == Halt(c.events, ErrorOf(c.state), c.pos)
  {
  }

  /** `IterativeParse` from a configuration whose cursor is past white space. */
  function Iterate(s: bytes, c: Config, fl: Flags): (r: Run)
    requires WellFormed(c) && c.pos <= |s|
    decreases |s| - c.pos, 0
  {
    if Peek(s, c.pos) == NUL then
      (if c.state.Finish? then Good(c.events, c.pos) else Bad(c.events, ErrorOf(c.state), c.pos))
    else
      TransitKeepsWellFormed(s, c, fl);
      match Transit(s, c, fl)
      case Halt(events, code, offset) => Bad(events, code, offset)
      case Move(d) => Continue(s, d, fl)
  }

  /** The end of the loop body: stop at a finished root if asked to, otherwise skip white space and go on. */
  function Continue(s: bytes, d: Config, fl: Flags): (r: Run)
    requires WellFormed(d) && d.pos <= |s|
    decreases |s| - d.pos, 1
  {
    if fl.stopWhenDone && d.state.Finish? then Good(d.events, d.pos)
    else Iterate(s, d.(pos := SkipSpace(s, d.pos)), fl)
  }

  function IterativeParse(s: bytes, fl: Flags): Run {
    Iterate(s, Config(Start, [], SkipSpace(s, 0), []), fl)
  }
}
