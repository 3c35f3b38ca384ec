/** The numeric entry field: its data, the keystroke handler that edits the
    value one key at a time, the colour rule, the two-step clear, and the
    watcher through which the host sets the value from outside. */
module NumericInput {
  import opened DecimalText
  import opened JsNumber

  datatype Option<T> = None | Some(value: T)

  /** JavaScript truthiness of an optional string: present and non-empty. */
  predicate Truthy(s: Option<string>) {
    s.Some? && s.value != ""
  }

  /** The component's data: the numeric value, the fraction digits typed so
      far, and whether digit keys currently go to the fraction. */
  datatype State = State(internalValue: real, fractPart: string, fractDigitsEdited: bool)

  /** The data of a freshly created component. */
  const Init := State(0.0, "0", false)

  /** What every reachable state keeps: the fraction text is "0" or digits
      with a non-zero first digit, so a zero right after the separator can
      never be typed. */
  predicate Valid(st: State) {
    Canonical(st.fractPart)
  }

  /** The texts one keystroke edits: the integer text rebuilt from the value,
      the fraction text, and the fraction-mode flag. */
  datatype Buffer = Buffer(text: string, fractPart: string, fractDigitsEdited: bool)

  predicate WellFormed(b: Buffer) {
    WellFormedInteger(b.text) && Canonical(b.fractPart)
  }

  /** How the handler reads a key name. */
  datatype KeyClass = DigitKey(c: char) | MinusKey | BackspaceKey | SeparatorKey | OtherKey

  function Classify(key: string): (k: KeyClass)
    ensures k.DigitKey? ==> IsDigit(k.c) && key == [k.c]
  {
    if |key| == 1 && IsDigit(key[0]) then DigitKey(key[0])
    else if key == "-" then MinusKey
    else if key == "Backspace" then BackspaceKey
    else if key == "," || key == "." then SeparatorKey
    else OtherKey
  }

  /** A digit typed onto a digit text: it replaces a lone "0" unless it is
      itself '0' (then nothing changes), and is appended otherwise. */
  function AppendDigit(s: string, c: char): string {
    if s == "0" && c != '0' then [c]
    else if s != "0" then s + [c]
    else s
  }

  /** Backspace on a text: drops the last character, never leaving it empty. */
  function DropLast(s: string): string {
    if |s| <= 1 then "0" else s[..|s| - 1]
  }

  /** The '-' key on the integer text: removes the sign or prepends one. */
  function ToggleSign(s: string): string {
    if |s| >= 1 && s[0] == '-' then RemoveFirst(s, '-') else "-" + s
  }

  /** Backspace on the integer text: a sign and one digit collapse to "0". */
  function BackspaceInteger(s: string): string {
    if |s| == 2 && s[0] == '-' then "0" else DropLast(s)
  }

  /** The edit one key makes to the buffer. */
  function ApplyKey(b: Buffer, k: KeyClass, precision: int): (r: Buffer)
    requires WellFormed(b)
    requires k.DigitKey? ==> IsDigit(k.c)
    ensures WellFormed(r)
  {
    match k
    case DigitKey(c) =>
      if b.fractDigitsEdited then b.(fractPart := AppendDigit(b.fractPart, c))
      else b.(text := AppendDigit(b.text, c))
    case MinusKey =>
      b.(text := ToggleSign(b.text))
    case BackspaceKey =>
      if b.fractDigitsEdited then b.(fractPart := DropLast(b.fractPart))
      else b.(text := BackspaceInteger(b.text))
    case SeparatorKey =>
      if precision > 0 then b.(fractDigitsEdited := !b.fractDigitsEdited) else b
    case OtherKey =>
      b
  }

  /** The buffer after one key: the integer text is rebuilt from the current
      value with Math.trunc and toString, then edited. */
  function EditBuffer(st: State, key: string, precision: int): (b: Buffer)
    requires Valid(st)
    ensures WellFormed(b)
  {
    var start := Buffer(IntToString(Trunc(st.internalValue)), st.fractPart, st.fractDigitsEdited);
    ApplyKey(start, Classify(key), precision)
  }

  /** The text handed to Number(): `int.fract` when precision > 0, else `int`. */
  function ComposedText(b: Buffer, precision: int): string {
    if precision > 0 then b.text + "." + b.fractPart else b.text
  }

  /** The value the buffer denotes: its integer digits plus, when precision
      > 0, its fraction, with the sign of the text. */
  function BufferValue(b: Buffer, precision: int): real
    requires WellFormed(b)
  {
    var x := if precision > 0 then DecimalValue(Magnitude(b.text), b.fractPart) else DigitsValue(Magnitude(b.text)) as real;
    if b.text[0] == '-' then -x else x
  }

  /** The composed text always parses, to the value the buffer denotes. */
  lemma ComposedNumber(b: Buffer, precision: int)
    requires WellFormed(b)
    ensures Number(ComposedText(b, precision)) == Finite(BufferValue(b, precision))
  {
    SplitSign(b.text);
    if precision > 0 {
      NumberOfDecimal(b.text[0] == '-', Magnitude(b.text), b.fractPart);
    } else {
      NumberOfInteger(b.text[0] == '-', Magnitude(b.text));
    }
  }

  /** Outcome of one keydown: the new data and whether the browser's default
      handling of the key is suppressed. */
  datatype KeyResult = KeyResult(state: State, preventDefault: bool)

  /** The keydown handler. */
  function KeyProcess(st: State, key: string, precision: int): (r: KeyResult)
    requires Valid(st)
    ensures Valid(r.state)
    ensures r.preventDefault <==> key != "ArrowLeft" && key != "ArrowRight"
  {
    var b := EditBuffer(st, key, precision);
    var n := Number(ComposedText(b, precision));
    ComposedNumber(b, precision);
    KeyResult(State(n.value, b.fractPart, b.fractDigitsEdited), key != "ArrowLeft" && key != "ArrowRight")
  }

  /** The handler's new data: the value the edited buffer denotes, with the
      buffer's fraction text and mode. */
  lemma KeyProcessState(st: State, key: string, precision: int)
    requires Valid(st)
    ensures var b := EditBuffer(st, key, precision);
      KeyProcess(st, key, precision).state == State(BufferValue(b, precision), b.fractPart, b.fractDigitsEdited)
  {
    ComposedNumber(EditBuffer(st, key, precision), precision);
  }

  /** The data after a sequence of keydowns. */
  function Run(st: State, keys: seq<string>, precision: int): (r: State)
    requires Valid(st)
    ensures Valid(r)
    decreases |keys|
  {
    if |keys| == 0 then st
    else KeyProcess(Run(st, keys[..|keys| - 1], precision), keys[|keys| - 1], precision).state
  }

  /** The text colour: the negative colour for a negative value when one is
      configured (non-empty), the base colour otherwise. */
  function ComputedColor(internalValue: real, negativeTextColor: Option<string>, color: Option<string>): (r: Option<string>)
    ensures internalValue < 0.0 && Truthy(negativeTextColor) ==> r == negativeTextColor
    ensures !(internalValue < 0.0 && Truthy(negativeTextColor)) ==> r == color
  {
    if internalValue < 0.0 && Truthy(negativeTextColor) then negativeTextColor else color
  }

  /** The displayed text: the prefix (if any) and the formatted value, where
      `format` stands for the locale number formatter. */
  function ComputedValue(internalValue: real, prefix: Option<string>, format: real -> string): (r: string)
    ensures r == (if Truthy(prefix) then prefix.value else "") + format(internalValue)
  {
    var p := if Truthy(prefix) then prefix.value else "";
    if internalValue != 0.0 then p + format(internalValue) else p + format(0.0)
  }

  /** The `value` watcher: a value set from outside replaces the numeric value
      and leaves the fraction text and mode as they are. */
  function WatchValue(st: State, val: real): State {
    st.(internalValue := val)
  }

  /** The two states clearing goes through: the one set at once, and the one
      after the deferred step of the next tick. */
  datatype ClearSteps = ClearSteps(immediate: State, afterTick: State)

  /** Clearing, given the `value` prop as seen at the next tick (None when it
      is absent). The deferred step keeps a truthy prop value and uses 0
      otherwise. */
  function ClearValue(valueAtTick: Option<real>): (r: ClearSteps)
    ensures r.immediate == State(1.0, "0", false)
    ensures Valid(r.afterTick) && r.afterTick.fractPart == "0" && !r.afterTick.fractDigitsEdited
    ensures r.afterTick.internalValue == (if valueAtTick.Some? then valueAtTick.value else 0.0)
  {
    var immediate := State(1.0, "0", false);
    var settled := if valueAtTick.Some? && valueAtTick.value != 0.0 then valueAtTick.value else 0.0;
    ClearSteps(immediate, immediate.(internalValue := settled))
  }
}
