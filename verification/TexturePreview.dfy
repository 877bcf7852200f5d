/** The texture preview background: parsing of names and hex colours, and printing. */
module TexturePreview {
  import opened Text

  type Channel = x: int | 0 <= x < 256

  datatype Background = Transparent | Solid(red: Channel, green: Channel, blue: Channel, alpha: Channel)

  function HexDigit(n: nat): char
    requires n < 16
  {
    if n < 10 then ('0' as int + n) as char else ('a' as int + n - 10) as char
  }

  function HexValue(c: char): (v: Option<nat>)
    ensures v.Some? ==> v.value < 16
  {
    if '0' <= c <= '9' then Some(c as int - '0' as int)
    else if 'a' <= c <= 'f' then Some(c as int - 'a' as int + 10)
    else if 'A' <= c <= 'F' then Some(c as int - 'A' as int + 10)
    else None
  }

  /** Rust's `u8::from_str_radix` on two characters: two hex digits, or a plus sign and one. */
  function ParseHexByte(hex: string, start: nat): Option<Channel>
    requires start + 2 <= |hex|
  {
    var high, low := HexValue(hex[start]), HexValue(hex[start + 1]);
    if low.None? then None
    else if hex[start] == '+' then Some(low.value)
    else if high.None? then None
    else Some(16 * high.value + low.value)
  }

  function ParseHexBackground(value: string): Option<Background> {
    var v := Trim(value);
    if v == [] || v[0] != '#' then None
    else
      var hex := v[1..];
      if |hex| != 6 && |hex| != 8 then None
      else
        var r, g, b := ParseHexByte(hex, 0), ParseHexByte(hex, 2), ParseHexByte(hex, 4);
        var a := if |hex| == 8 then ParseHexByte(hex, 6) else Some(255);
        if r.None? || g.None? || b.None? || a.None? then None else Some(Solid(r.value, g.value, b.value, a.value))
  }

  function ParseBackground(value: string): Option<Background> {
    var name := Lower(Trim(value));
    if name == "transparent" || name == "none" then Some(Transparent)
    else if name == "white" then Some(Solid(255, 255, 255, 255))
    else if name == "black" then Some(Solid(0, 0, 0, 255))
    else ParseHexBackground(value)
  }

  function High(x: Channel): char { HexDigit(x / 16) }
  function Low(x: Channel): char { HexDigit(x % 16) }

  function WireValue(b: Background): string {
    match b
    case Transparent => "transparent"
    case Solid(r, g, b, a) => ['#', High(r), Low(r), High(g), Low(g), High(b), Low(b), High(a), Low(a)]
  }

  function NormalizeBackground(value: string): Option<string> {
    match ParseBackground(value)
    case None => None
    case Some(b) => Some(WireValue(b))
  }

  const HEX_DIGITS := "0123456789abcdef"

  /** `c` is the digit for `n`, in either case. */
  predicate Spells(c: char, n: nat) { n < 16 && SameLetter(c, HEX_DIGITS[n]) }

  lemma DigitMeaning(c: char, n: nat)
    ensures HexValue(c) == Some(n) <==> Spells(c, n)
  {
  }

  /** Two digits spell a channel. */
  predicate SpellsChannel(hex: string, start: nat, x: Channel) {
    start + 2 <= |hex| && Spells(hex[start], x / 16) && Spells(hex[start + 1], x % 16)
  }

  lemma ChannelMeaning(hex: string, start: nat, x: Channel)
    requires SpellsChannel(hex, start, x)
    ensures ParseHexByte(hex, start) == Some(x)
  {
    DigitMeaning(hex[start], x / 16);
    DigitMeaning(hex[start + 1], x % 16);
  }

  /** Text behind a hash sign is never a name. */
  lemma HashIsNoName(value: string)
    requires Trimmed(value) && value != [] && value[0] == '#'
    ensures ParseBackground(value) == ParseHexBackground(value)
  {
    TrimOfTrimmed(value);
    assert Lower(value)[0] == '#';
  }

  lemma DigitsParse(hex: string, r: Channel, g: Channel, b: Channel, a: Channel)
    requires |hex| == 6 || |hex| == 8
    requires SpellsChannel(hex, 0, r) && SpellsChannel(hex, 2, g) && SpellsChannel(hex, 4, b)
    requires if |hex| == 8 then SpellsChannel(hex, 6, a) else a == 255
    requires Trimmed("#" + hex)
    ensures ParseHexBackground("#" + hex) == Some(Solid(r, g, b, a))
  {
    TrimOfTrimmed("#" + hex);
    assert ("#" + hex)[1..] == hex;
    ChannelMeaning(hex, 0, r);
    ChannelMeaning(hex, 2, g);
    ChannelMeaning(hex, 4, b);
    if |hex| == 8 { ChannelMeaning(hex, 6, a); }
  }

  /** Six or eight digits behind a hash sign give the channels they spell, opaque if there are
      six. */
  lemma ColourMeaning(hex: string, r: Channel, g: Channel, b: Channel, a: Channel)
    requires |hex| == 6 || |hex| == 8
    requires SpellsChannel(hex, 0, r) && SpellsChannel(hex, 2, g) && SpellsChannel(hex, 4, b)
    requires if |hex| == 8 then SpellsChannel(hex, 6, a) else a == 255
    ensures ParseBackground("#" + hex) == Some(Solid(r, g, b, a))
  {
    HashIsTrimmed(hex, if |hex| == 8 then a % 16 else b % 16);
    HashIsNoName("#" + hex);
    DigitsParse(hex, r, g, b, a);
  }

  lemma HashIsTrimmed(hex: string, n: nat)
    requires hex != [] && Spells(hex[|hex| - 1], n)
    ensures Trimmed("#" + hex)
  {
    DigitIsNoSpace(hex[|hex| - 1], n);
    assert !IsSpace('#');
  }

  lemma DigitIsNoSpace(c: char, n: nat)
    requires Spells(c, n)
    ensures !IsSpace(c)
  {
    DigitMeaning(c, n);
  }

  ghost predicate Digit(c: char) { exists n :: Spells(c, n) }

  lemma DigitExactly(c: char)
    ensures HexValue(c).Some? <==> Digit(c)
  {
    if HexValue(c).Some? { DigitMeaning(c, HexValue(c).value); }
    if n :| Spells(c, n) { DigitMeaning(c, n); }
  }

  /** Two characters that the integer parser takes: two digits, or a plus sign and a digit. */
  ghost predicate Pair(t: string, i: nat) { i + 1 < |t| && Digit(t[i + 1]) && (t[i] == '+' || Digit(t[i])) }

  lemma PairExactly(t: string, i: nat)
    requires 1 <= i && i + 2 <= |t|
    ensures ParseHexByte(t[1..], i - 1).Some? <==> Pair(t, i)
  {
    DigitExactly(t[i]);
    DigitExactly(t[i + 1]);
  }

  /** Other text is a colour exactly when it is a hash sign and three or four such pairs. */
  lemma HexAcceptedExactly(value: string)
    ensures var t := Trim(value);
            ParseHexBackground(value).Some? <==>
              && (|t| == 7 || |t| == 9) && t[0] == '#'
              && Pair(t, 1) && Pair(t, 3) && Pair(t, 5) && (|t| == 9 ==> Pair(t, 7))
  {
    var t := Trim(value);
    if |t| == 7 || |t| == 9 {
      PairExactly(t, 1);
      PairExactly(t, 3);
      PairExactly(t, 5);
      if |t| == 9 { PairExactly(t, 7); }
    }
  }

  /** What the names mean. */
  lemma NameMeaning(name: string)
    requires Trimmed(name) && Lower(name) == name
    ensures name == "transparent" || name == "none" ==> ParseBackground(name) == Some(Transparent)
    ensures name == "white" ==> ParseBackground(name) == Some(Solid(255, 255, 255, 255))
    ensures name == "black" ==> ParseBackground(name) == Some(Solid(0, 0, 0, 255))
  {
    TrimOfTrimmed(name);
    assert name == "white" ==> name[0] == 'w';
    assert name == "black" ==> name[0] == 'b';
  }

  lemma HexDigitReadsBack(n: nat)
    requires n < 16
    ensures HexValue(HexDigit(n)) == Some(n) && HexDigit(n) != '+' && !IsSpace(HexDigit(n))
  {
  }

  lemma HexByteReadsBack(hex: string, start: nat, x: Channel)
    requires start + 2 <= |hex| && hex[start] == High(x) && hex[start + 1] == Low(x)
    ensures ParseHexByte(hex, start) == Some(x)
  {
    HexDigitReadsBack(x / 16);
    HexDigitReadsBack(x % 16);
  }

  lemma SolidParsesBack(b: Background)
    requires b.Solid?
    ensures ParseBackground(WireValue(b)) == Some(b)
  {
    var w := WireValue(b);
    HexDigitReadsBack(b.alpha % 16);
    assert !IsSpace('#');
    TrimOfTrimmed(w);
    assert Lower(w)[0] == '#';
    HexByteReadsBack(w[1..], 0, b.red);
    HexByteReadsBack(w[1..], 2, b.green);
    HexByteReadsBack(w[1..], 4, b.blue);
    HexByteReadsBack(w[1..], 6, b.alpha);
  }

  /** Every background prints to text that parses back to it. */
  lemma WireValueParsesBack(b: Background)
    ensures ParseBackground(WireValue(b)) == Some(b)
  {
    if b.Solid? {
      SolidParsesBack(b);
    } else {
      TrimOfTrimmed("transparent");
      assert Lower("transparent") == "transparent";
    }
  }

  /** Normalizing any accepted text keeps its colour and is idempotent. */
  lemma NormalizeKeepsColour(value: string)
    requires NormalizeBackground(value).Some?
    ensures var printed := NormalizeBackground(value).value;
            ParseBackground(printed) == ParseBackground(value) && NormalizeBackground(printed) == Some(printed)
  {
    WireValueParsesBack(ParseBackground(value).value);
  }

  lemma LowerKeepsHex(c: char)
    ensures HexValue(LowerChar(c)) == HexValue(c)
    ensures LowerChar(c) == '+' <==> c == '+'
    ensures LowerChar(c) == '#' <==> c == '#'
    ensures IsSpace(LowerChar(c)) <==> IsSpace(c)
    ensures LowerChar(LowerChar(c)) == LowerChar(c)
  {
  }

  lemma LowerKeepsHexByte(hex: string, start: nat)
    requires start + 2 <= |hex|
    ensures ParseHexByte(Lower(hex), start) == ParseHexByte(hex, start)
  {
    LowerKeepsHex(hex[start]);
    LowerKeepsHex(hex[start + 1]);
  }

  lemma LowerKeepsTrimmed(t: string)
    requires Trimmed(t)
    ensures Trimmed(Lower(t)) && Lower(Lower(t)) == Lower(t)
  {
    forall i | 0 <= i < |t| ensures LowerChar(LowerChar(t[i])) == LowerChar(t[i]) { LowerKeepsHex(t[i]); }
    if t != [] {
      LowerKeepsHex(t[0]);
      LowerKeepsHex(t[|t| - 1]);
    }
  }

  lemma LowerKeepsHexBackground(t: string)
    requires Trimmed(t)
    ensures ParseHexBackground(Lower(t)) == ParseHexBackground(t)
  {
    LowerKeepsTrimmed(t);
    TrimOfTrimmed(t);
    TrimOfTrimmed(Lower(t));
    if t != [] {
      LowerKeepsHex(t[0]);
      var hex := t[1..];
      assert Lower(t)[1..] == Lower(hex);
      if |hex| == 6 || |hex| == 8 {
        LowerKeepsHexByte(hex, 0);
        LowerKeepsHexByte(hex, 2);
        LowerKeepsHexByte(hex, 4);
        if |hex| == 8 { LowerKeepsHexByte(hex, 6); }
      }
    }
  }

  /** Case and surrounding whitespace never matter. */
  lemma CaseAndPaddingDoNotMatter(value: string)
    ensures ParseBackground(Lower(Trim(value))) == ParseBackground(value)
  {
    var t := Trim(value);
    TrimIsTrimmed(value);
    TrimOfTrimmed(t);
    LowerKeepsTrimmed(t);
    TrimOfTrimmed(Lower(t));
    LowerKeepsHexBackground(t);
    assert ParseHexBackground(t) == ParseHexBackground(value);
  }

  /** Six digits mean the opaque colour that eight digits ending in ff spell out. */
  lemma SixDigitsAreOpaque(hex: string)
    requires |hex| == 6 && forall c :: c in hex ==> HexValue(c).Some?
    ensures var six := ParseHexBackground("#" + hex);
            six.Some? && six == ParseHexBackground("#" + hex + "ff") && six.value.alpha == 255
  {
    var six, eight := "#" + hex, "#" + hex + "ff";
    forall c: char | HexValue(c).Some? || c == '#' ensures !IsSpace(c) {}
    assert six[5] == hex[4] && hex[5] in hex && six[6] == hex[5];
    TrimOfTrimmed(six);
    TrimOfTrimmed(eight);
    assert six[1..] == hex && eight[1..] == hex + "ff";
    forall i | 0 <= i < 6 ensures HexValue(hex[i]).Some? && (hex + "ff")[i] == hex[i] { assert hex[i] in hex; }
    assert HexValue('f') == Some(15) && HexValue('+') == None;
  }
}
