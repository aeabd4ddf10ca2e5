/**
  The status text shown on the clock: a mode label followed by the ticks
  left, right-aligned in a field of width two. In work mode the label is
  the wall-clock time ("HH:MM"), which is a parameter here.
 */
module Display {
  import opened Timer

  predicate IsDigit(ch: char)
  {
    '0' <= ch <= '9'
  }

  predicate AllDigits(s: string)
  {
    forall i :: 0 <= i < |s| ==> IsDigit(s[i])
  }

  function DigitChar(d: nat): (ch: char)
    requires d < 10
    ensures IsDigit(ch) && ch as int - '0' as int == d
  {
    ('0' as int + d) as char
  }

  /** Decimal notation of a natural number, without leading zeros. */
  function Decimal(n: nat): (s: string)
    ensures 1 <= |s| && AllDigits(s)
    ensures |s| > 1 ==> s[0] != '0'
    ensures n < 10 <==> |s| == 1
    ensures n < 100 ==> |s| <= 2
    decreases n
  {
    if n < 10 then [DigitChar(n)] else Decimal(n / 10) + [DigitChar(n % 10)]
  }

  /** Value of a string of decimal digits. */
  function ParseDecimal(s: string): nat
    requires AllDigits(s)
    decreases |s|
  {
    if |s| == 0 then 0
    else ParseDecimal(s[..|s| - 1]) * 10 + (s[|s| - 1] as int - '0' as int)
  }

  /** Reading a number's decimal notation gives the number back. */
  lemma {:induction false} DecimalRoundTrip(n: nat)
    ensures ParseDecimal(Decimal(n)) == n
    decreases n
  {
    if n >= 10 {
      var s := Decimal(n);
      assert s[..|s| - 1] == Decimal(n / 10);
      DecimalRoundTrip(n / 10);
    }
  }

  /** Right alignment in a field of `width` characters (Rust's `{:>width}`):
      pads with spaces on the left, never truncates. */
  function RightAlign(s: string, width: nat): (r: string)
    ensures |r| == if |s| < width then width else |s|
    ensures r[|r| - |s|..] == s
    ensures forall i :: 0 <= i < |r| - |s| ==> r[i] == ' '
  {
    if |s| >= width then s else seq(width - |s|, _ => ' ') + s
  }

  /** The formatted wall-clock time: two digits, a colon, two digits. */
  predicate IsClock(s: string)
  {
    |s| == 5 && IsDigit(s[0]) && IsDigit(s[1]) && s[2] == ':' && IsDigit(s[3]) && IsDigit(s[4])
  }

  /** What precedes the count: the time and three spaces in work mode,
      "SHORT" or "LONG" padded to seven characters in the breaks. */
  function Label(m: Mode, clock: string): string
  {
    match m
    case Work => clock + "   "
    case ShortBreak => "SHORT  "
    case LongBreak => "LONG   "
  }

  /** The text of a status update. */
  function StatusText(m: Mode, clock: string, remaining: nat): string
  {
    Label(m, clock) + RightAlign(Decimal(remaining), 2)
  }

  /** A status text read back: the mode and the ticks shown. */
  datatype Status = Status(mode: Mode, remaining: nat)

  function DropSpaces(s: string): (r: string)
    ensures |r| <= |s| && r == s[|s| - |r|..]
    ensures |r| > 0 ==> r[0] != ' '
    decreases |s|
  {
    if |s| > 0 && s[0] == ' ' then DropSpaces(s[1..]) else s
  }

  function ReadCount(s: string): Option<nat>
  {
    var digits := DropSpaces(s);
    if |digits| > 0 && AllDigits(digits) then Some(ParseDecimal(digits)) else None
  }

  /** Recognises the label a status text starts with: the mode it stands
      for and the label's length. */
  function ReadLabel(t: string): Option<(Mode, nat)>
  {
    if |t| >= 7 && t[..7] == "SHORT  " then Some((ShortBreak, 7))
    else if |t| >= 7 && t[..7] == "LONG   " then Some((LongBreak, 7))
    else if |t| >= 8 && IsClock(t[..5]) && t[5..8] == "   " then Some((Work, 8))
    else None
  }

  /** Parses a status text: its label tells the mode, the rest the count. */
  function ReadStatus(t: string): Option<Status>
  {
    var head := ReadLabel(t);
    if head.None? || head.value.1 > |t| then None
    else
      var count := ReadCount(t[head.value.1..]);
      if count.None? then None else Some(Status(head.value.0, count.value))
  }

  /** Leading spaces before a digit string are dropped exactly. */
  lemma {:induction false} DropPadding(pad: nat, s: string)
    requires |s| > 0 && s[0] != ' '
    ensures DropSpaces(seq(pad, _ => ' ') + s) == s
    decreases pad
  {
    if pad > 0 {
      assert (seq(pad, _ => ' ') + s)[1..] == seq(pad - 1, _ => ' ') + s;
      DropPadding(pad - 1, s);
    } else {
      assert seq(pad, _ => ' ') + s == s;
    }
  }

  /** The right-aligned count reads back as the count. */
  lemma ReadCountField(remaining: nat)
    ensures ReadCount(RightAlign(Decimal(remaining), 2)) == Some(remaining)
  {
    var digits := Decimal(remaining);
    var field := RightAlign(digits, 2);
    var pad := |field| - |digits|;
    assert field == seq(pad, _ => ' ') + digits;
    DropPadding(pad, digits);
    DecimalRoundTrip(remaining);
  }

  /** Each label is recognised as its own mode, whatever follows it. */
  lemma ReadLabelOfLabel(m: Mode, clock: string, rest: string)
    requires IsClock(clock)
    ensures ReadLabel(Label(m, clock) + rest) == Some((m, |Label(m, clock)|))
  {
    var t := Label(m, clock) + rest;
    match m
    case Work =>
      assert t[..7][0] == clock[0];
      assert t[..5] == clock && t[5..8] == "   ";
    case ShortBreak =>
      assert t[..7] == "SHORT  ";
    case LongBreak =>
      assert t[..7][0] == 'L';
      assert t[..7] == "LONG   ";
  }

  /** A label followed by a readable count reads back as that mode and count. */
  lemma ReadLabelled(m: Mode, clock: string, field: string, n: nat)
    requires IsClock(clock) && ReadCount(field) == Some(n)
    ensures ReadStatus(Label(m, clock) + field) == Some(Status(m, n))
  {
    var t := Label(m, clock) + field;
    ReadLabelOfLabel(m, clock, field);
    assert t[|Label(m, clock)|..] == field;
  }

  /** The text shows its mode and count unambiguously: reading it back
      gives the mode and the ticks left. */
  lemma StatusTextRoundTrip(m: Mode, clock: string, remaining: nat)
    requires IsClock(clock)
    ensures ReadStatus(StatusText(m, clock, remaining)) == Some(Status(m, remaining))
  {
    ReadCountField(remaining);
    ReadLabelled(m, clock, RightAlign(Decimal(remaining), 2), remaining);
  }

  /** Break texts have a fixed width of nine characters while the count has
      at most two digits; work texts likewise have ten. */
  lemma StatusTextWidth(m: Mode, clock: string, remaining: nat)
    requires IsClock(clock) && remaining < 100
    ensures |StatusText(m, clock, remaining)| == if m == Work then 10 else 9
  {
  }
}
