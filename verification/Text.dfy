/** The text builder and the number printers. */
module Text {
  import opened Wrappers
  import opened ItState

  datatype FormatStatus = TextOk | OutputTooSmall

  // ---- what a caller sees

  /** What formatting leaves behind: the status, the counts, and the text in the buffer up to its NUL. */
  datatype Outcome = Outcome(status: FormatStatus, required: nat, written: nat, shown: Option<string>)

  function Min(a: nat, b: nat): nat {
    if a < b then a else b
  }

  /** The outcome of formatting `full` into a buffer of the given capacity, if there is one. */
  function OutcomeOf(full: string, capacity: Option<nat>): Outcome {
    if capacity.None? || capacity.value == 0 then Outcome(OutputTooSmall, |full|, 0, None)
    else
      var written := Min(|full|, capacity.value - 1);
      Outcome(if written < |full| then OutputTooSmall else TextOk, |full|, written, Some(full[..written]))
  }

  /** Formatting succeeds exactly when the buffer has one character more than `required`, whatever the
      capacity of the call that reported `required`; then the buffer holds the whole text. */
  lemma RetrySucceeds(full: string, first: Option<nat>, second: Option<nat>)
    ensures OutcomeOf(full, second).status == TextOk <==> second.Some? && second.value >= OutcomeOf(full, first).required + 1
    ensures OutcomeOf(full, second).status == TextOk <==> OutcomeOf(full, second).shown == Some(full)
  {
    var written := OutcomeOf(full, second).written;
    assert written == |full| ==> full[..written] == full;
  }

  /** A larger buffer never shows less, and what it shows extends what the smaller one shows. */
  lemma LargerShowsMore(full: string, small: nat, large: nat)
    requires 0 < small <= large
    ensures OutcomeOf(full, Some(small)).shown.value <= OutcomeOf(full, Some(large)).shown.value
  {
    var less, more := OutcomeOf(full, Some(small)).written, OutcomeOf(full, Some(large)).written;
    assert full[..more][..less] == full[..less];
  }

  // ---- the digits of a number

  function Digit(d: nat): char
    requires d < 16
  {
    "0123456789abcdef"[d]
  }

  /** The digits of `value`, most significant first. */
  function Digits(value: nat, base: nat): (s: string)
    requires 2 <= base <= 16
    ensures |s| > 0
    decreases value
  {
    if value < base then [Digit(value)] else Digits(value / base, base) + [Digit(value % base)]
  }

  function DigitValue(c: char, base: nat): Option<nat> {
    var v := if '0' <= c <= '9' then (c - '0') as nat else if 'a' <= c <= 'f' then (c - 'a') as nat + 10 else base;
    if v < base then Some(v) else None
  }

  /** How a reader understands a string of digits. */
  function Parse(s: string, base: nat): Option<nat> {
    if s == [] then Some(0)
    else
      var high, low := Parse(s[..|s| - 1], base), DigitValue(s[|s| - 1], base);
      if high.None? || low.None? then None else Some(high.value * base + low.value)
  }

  lemma DigitReadsBack(d: nat, base: nat)
    requires d < base <= 16
    ensures DigitValue(Digit(d), base) == Some(d)
  {
  }

  lemma Divide(value: nat, base: nat)
    requires base >= 2
    ensures value / base >= 0 && value % base < base && value == value / base * base + value % base
    ensures value < base ==> value / base == 0 && value % base == value
    ensures value >= base ==> 0 < value / base < value
  {
    var quotient, remainder := value / base, value % base;
    assert value == base * quotient + remainder;
    MulOrder(quotient, 2, base);
    if value >= base { MulOrder(base, quotient, 0); }
  }

  lemma MulOrder(a: nat, p: nat, q: nat)
    ensures p <= q ==> a * p <= a * q
  {
  }

  lemma DigitsStep(value: nat, base: nat)
    requires 2 <= base <= 16
    ensures value < base ==> Digits(value, base) == [Digit(value)]
    ensures value >= base ==> value / base >= 0 && Digits(value, base) == Digits(value / base, base) + [Digit(value % base)]
  {
    hide Digit;
  }

  lemma ParseStep(s: string, c: char, base: nat)
    ensures Parse(s + [c], base) ==
            if Parse(s, base).None? || DigitValue(c, base).None? then None
            else Some(Parse(s, base).value * base + DigitValue(c, base).value)
  {
    hide DigitValue;
    assert (s + [c])[..|s + [c]| - 1] == s;
  }

  /** The digits of every number read back as that number, and do not start with a superfluous zero. */
  lemma {:induction false} DigitsReadBack(value: nat, base: nat)
    requires 2 <= base <= 16
    ensures Parse(Digits(value, base), base) == Some(value)
    ensures value > 0 ==> Digits(value, base)[0] != '0'
    decreases value
  {
    assert Parse([], base) == Some(0);
    hide DigitValue, Digit, Digits, Parse;
    Divide(value, base);
    DigitsStep(value, base);
    DigitReadsBack(value % base, base);
    if value < base {
      ParseStep([], Digit(value), base);
      assert [] + [Digit(value)] == [Digit(value)];
      NonZeroDigit(value);
    } else {
      DigitsReadBack(value / base, base);
      ParseStep(Digits(value / base, base), Digit(value % base), base);
    }
  }

  lemma NonZeroDigit(d: nat)
    requires d < 16
    ensures d > 0 ==> Digit(d) != '0'
  {
  }

  function Power(base: nat, n: nat): nat {
    if n == 0 then 1 else base * Power(base, n - 1)
  }

  lemma {:induction false} PowerSum(base: nat, m: nat, n: nat)
    ensures Power(base, m + n) == Power(base, m) * Power(base, n)
    decreases m
  {
    if m > 0 {
      PowerSum(base, m - 1, n);
      Associate(base, Power(base, m - 1), Power(base, n));
    }
  }

  lemma Associate(a: nat, b: nat, c: nat)
    ensures a * (b * c) == a * b * c
  {
  }

  lemma {:induction false} DigitCount(value: nat, base: nat, n: nat)
    requires 2 <= base <= 16 && n > 0 && value < Power(base, n)
    ensures |Digits(value, base)| <= n
    decreases n
  {
    assert Power(base, n) == base * Power(base, n - 1);
    assert n == 1 ==> Power(base, n - 1) == 1;
    hide Digit, Digits, Power;
    Divide(value, base);
    DigitsStep(value, base);
    if n > 1 && value >= base {
      Quotient(value, base, Power(base, n - 1));
      DigitCount(value / base, base, n - 1);
    }
  }

  lemma Quotient(value: nat, base: nat, p: nat)
    requires base > 0 && value < base * p
    ensures value / base < p
  {
    MulOrder(base, p, value / base);
  }

  const TWO64: nat := 0x1_0000_0000_0000_0000

  /** The local arrays of 20 and 16 characters are large enough. */
  lemma DigitsFit(value: nat)
    requires value < TWO64
    ensures |Digits(value, 10)| <= 20 && |Digits(value, 16)| <= 16
  {
    assert Power(10, 1) == 10 * Power(10, 0) == 10;
    assert Power(16, 1) == 16 * Power(16, 0) == 16;
    hide Digits, Power;
    PowerSum(10, 1, 1);
    PowerSum(10, 2, 2);
    PowerSum(10, 4, 1);
    PowerSum(10, 5, 5);
    PowerSum(10, 10, 10);
    PowerSum(16, 1, 1);
    PowerSum(16, 2, 2);
    PowerSum(16, 4, 4);
    PowerSum(16, 8, 8);
    DigitCount(value, 10, 20);
    DigitCount(value, 16, 16);
  }

  /** The text of a signed number. */
  function SignedText(value: int): string {
    if value < 0 then "-" + Digits(-value, 10) else Digits(value, 10)
  }

  function ParseSigned(s: string): Option<int> {
    if s != [] && s[0] == '-' then
      var magnitude := Parse(s[1..], 10);
      if magnitude.None? then None else Some(-(magnitude.value as int))
    else
      var magnitude := Parse(s, 10);
      if magnitude.None? then None else Some(magnitude.value as int)
  }

  lemma {:induction false} NoSign(value: nat)
    ensures Digits(value, 10)[0] != '-'
    decreases value
  {
    if value >= 10 { NoSign(value / 10); }
  }

  lemma SignedReadsBack(value: int)
    ensures ParseSigned(SignedText(value)) == Some(value)
  {
    hide Parse, Digits;
    var magnitude := if value < 0 then -value else value;
    DigitsReadBack(magnitude, 10);
    NoSign(magnitude);
    if value < 0 { assert ("-" + Digits(magnitude, 10))[1..] == Digits(magnitude, 10); }
  }

  /** The text of an address. */
  function HexText(value: nat): string {
    "0x" + Digits(value, 16)
  }

  // ---- the builder

  class Builder {
    const text: array?<char>
    const capacity: nat
    var required: nat
    var written: nat
    /** Everything appended so far. */
    ghost var full: string

    ghost function Room(): nat {
      if text == null || capacity == 0 then 0 else capacity - 1
    }

    ghost predicate Valid() reads this, text {
      && (text != null ==> capacity <= text.Length)
      && required == |full|
      && written == Min(|full|, Room())
      && (text != null && capacity > 0 ==> text[..written] == full[..written])
    }

    /** Text already written and cells past the capacity stay as they are. */
    twostate predicate OnlyAppends() reads this, text {
      && written >= old(written)
      && (text != null ==> forall i :: 0 <= i < text.Length && !(old(written) <= i < Room()) ==> text[i] == old(text[i]))
    }

    constructor (text: array?<char>, capacity: nat)
      requires text != null ==> capacity <= text.Length
      ensures Valid() && full == [] && this.text == text && this.capacity == capacity
    {
      this.text, this.capacity := text, capacity;
      required, written, full := 0, 0, [];
    }

    /** `asmkit_text_builder_append_char`. */
    method AppendChar(c: char)
      requires Valid()
      modifies this, text
      ensures Valid() && full == old(full) + [c]
      ensures OnlyAppends()
    {
      full := full + [c];
      if text != null && capacity > 0 && written + 1 < capacity {
        text[written] := c;
        written := written + 1;
      }
      required := required + 1;
    }

    /** `asmkit_text_builder_append_cstr`. */
    method AppendString(s: string)
      requires Valid()
      modifies this, text
      ensures Valid() && full == old(full) + s
      ensures OnlyAppends()
    {
      var i := 0;
      while i < |s|
        invariant 0 <= i <= |s| && Valid() && full == old(full) + s[..i]
        invariant OnlyAppends()
      {
        AppendChar(s[i]);
        i := i + 1;
        assert s[..i] == s[..i - 1] + [s[i - 1]];
      }
      assert s[..i] == s;
    }

    /** The two loops that the decimal and the hexadecimal printer share. */
    method AppendDigits(value: nat, base: nat, size: nat)
      requires Valid() && 2 <= base <= 16 && |Digits(value, base)| <= size
      modifies this, text
      ensures Valid() && full == old(full) + Digits(value, base)
      ensures OnlyAppends()
    {
      hide Digits, Digit;
      var digits := new char[size](_ => ' ');
      var count: nat, rest: nat := 0, value;
      ghost var tail: string := [];
      var more := true;
      while more
        invariant 0 <= count <= size && |tail| == count && Valid() && full == old(full) && OnlyAppends()
        invariant forall i :: 0 <= i < count ==> digits[i] == tail[count - 1 - i]
        invariant more ==> Digits(rest, base) + tail == Digits(value, base)
        invariant !more ==> tail == Digits(value, base)
        decreases if more then rest + 1 else 0
      {
        LastDigit(rest, base, tail);
        digits[count] := Digit(rest % base);
        tail := [Digit(rest % base)] + tail;
        rest := rest / base;
        count := count + 1;
        more := rest != 0 && count < size;
      }
      while count > 0
        invariant 0 <= count <= |tail| && Valid() && full == old(full) + tail[..|tail| - count] && OnlyAppends()
        invariant forall i :: 0 <= i < count ==> digits[i] == tail[|tail| - 1 - i]
      {
        count := count - 1;
        AppendChar(digits[count]);
        assert tail[..|tail| - count] == tail[..|tail| - count - 1] + [tail[|tail| - 1 - count]];
      }
      assert tail[..|tail|] == tail;
    }

    /** `asmkit_text_builder_append_unsigned_dec`. */
    method AppendUnsignedDec(value: nat)
      requires Valid() && value < TWO64
      modifies this, text
      ensures Valid() && full == old(full) + Digits(value, 10)
      ensures OnlyAppends()
    {
      DigitsFit(value);
      AppendDigits(value, 10, 20);
    }

    /** `asmkit_text_builder_append_signed_dec`: the magnitude is a difference of 64-bit words. */
    method AppendSignedDec(value: int)
      requires Valid() && -0x8000_0000_0000_0000 <= value < 0x8000_0000_0000_0000
      modifies this, text
      ensures Valid() && full == old(full) + SignedText(value)
      ensures OnlyAppends()
    {
      hide Digits;
      var magnitude: nat;
      if value < 0 {
        AppendChar('-');
        magnitude := (0 - (value + TWO64)) % TWO64;
        assert magnitude == -value;
      } else {
        magnitude := value;
      }
      AppendUnsignedDec(magnitude);
    }

    /** `asmkit_text_builder_append_hex`. */
    method AppendHex(value: nat)
      requires Valid() && value < TWO64
      modifies this, text
      ensures Valid() && full == old(full) + HexText(value)
      ensures OnlyAppends()
    {
      hide Digits;
      DigitsFit(value);
      AppendString("0x");
      AppendDigits(value, 16, 16);
    }

    /** The loop over the mask bits, from bit 3 down to the one above the lowest set bit. */
    method AppendLetters(cond: bv8, mask: bv8, zeros: nat)
      requires Valid()
      modifies this, text
      ensures Valid() && full == old(full) + LettersFrom(cond, mask, zeros, 3)
      ensures OnlyAppends()
    {
      hide Letter;
      var bit: nat := 3;
      while bit > zeros
        invariant bit <= 3 && Valid() && OnlyAppends()
        invariant full + LettersFrom(cond, mask, zeros, bit) == old(full) + LettersFrom(cond, mask, zeros, 3)
      {
        AppendChar(Letter(cond, mask, bit));
        bit := bit - 1;
      }
    }

    /** `asmkit_text_append_arm_it_mnemonic`, for a Thumb IT instruction; false when it prints nothing. */
    method AppendItMnemonic(cond: bv8, mask: bv8) returns (done: bool)
      requires Valid()
      modifies this, text
      ensures Valid()
      ensures done <==> mask != 0 && ConditionName(Shown(cond)).Some?
      ensures full == if done then old(full) + ItText(cond, mask) else old(full)
      ensures OnlyAppends()
    {
      hide LettersFrom, TrailingZeros, ConditionName;
      if mask == 0 {
        return false;
      }
      var shown := Shown(cond);
      var name := ConditionName(shown);
      if name.None? {
        return false;
      }
      var zeros := TrailingZerosLoop(mask);
      AppendString("it");
      AppendLetters(shown, mask, zeros);
      AppendChar(' ');
      AppendString(name.value);
      done := true;
      assert full == old(full) + ItText(cond, mask);
    }

    /** `asmkit_text_builder_finish`. */
    method Finish() returns (status: FormatStatus, reportedRequired: nat, reportedWritten: nat)
      requires Valid()
      modifies text
      ensures Valid()
      ensures var shown := if text != null && capacity > 0 then Some(text[..written]) else None;
              Outcome(status, reportedRequired, reportedWritten, shown) == OutcomeOf(full, if text == null then None else Some(capacity))
      ensures text != null && capacity > 0 ==> text[written] == '\0'
      ensures text != null ==> forall i :: 0 <= i < text.Length && !(i == written && capacity > 0) ==> text[i] == old(text[i])
    {
      if text != null && capacity > 0 {
        text[written] := '\0';
      }
      reportedRequired, reportedWritten := required, written;
      if text == null || capacity == 0 {
        status := OutputTooSmall;
      } else {
        status := if written < required then OutputTooSmall else TextOk;
      }
    }
  }

  lemma LastDigit(rest: nat, base: nat, tail: string)
    requires 2 <= base <= 16
    ensures rest < base ==> Digits(rest, base) + tail == [Digit(rest % base)] + tail && rest / base == 0
    ensures rest >= base ==> Digits(rest, base) + tail == Digits(rest / base, base) + ([Digit(rest % base)] + tail) && 0 < rest / base < rest
  {
    hide Digits, Digit;
    Divide(rest, base);
    DigitsStep(rest, base);
  }

  method TrailingZerosLoop(mask: bv8) returns (n: nat)
    ensures n == TrailingZeros(mask)
  {
    n := 0;
    var rest := mask;
    while n < 4 && rest & 1 == 0
      invariant 0 <= n <= 4
      invariant TrailingZeros(mask) >= n
      invariant n == 0 ==> rest == mask
      invariant n == 1 ==> rest == mask >> 1
      invariant n == 2 ==> rest == mask >> 2
      invariant n == 3 ==> rest == mask >> 3
    {
      n := n + 1;
      rest := rest >> 1;
    }
  }

  /** `asmkit_text_aarch64_condition_name`. */
  function ConditionName(cond: bv8): Option<string> {
    if cond >= 16 then None
    else Some(["eq", "ne", "hs", "lo", "mi", "pl", "vs", "vc", "hi", "ls", "ge", "lt", "gt", "le", "al", "nv"][cond])
  }

  function ItText(cond: bv8, mask: bv8): string
    requires ConditionName(Shown(cond)).Some?
  {
    "it" + Letters(cond, mask) + " " + ConditionName(Shown(cond)).value
  }

  /** `asmkit_text_copy`: a whole formatting run over a buffer. */
  method Copy(s: string, text: array?<char>, capacity: nat) returns (status: FormatStatus, required: nat, written: nat)
    requires text != null ==> capacity <= text.Length
    modifies text
    ensures text != null && capacity > 0 ==> written < capacity && text[written] == '\0'
    ensures var shown := if text != null && capacity > 0 then Some(text[..written]) else None;
            Outcome(status, required, written, shown) == OutcomeOf(s, if text == null then None else Some(capacity))
    ensures text != null ==> text[capacity..] == old(text[capacity..])
  {
    var builder := new Builder(text, capacity);
    builder.AppendString(s);
    assert [] + s == s;
    status, required, written := builder.Finish();
  }
}
